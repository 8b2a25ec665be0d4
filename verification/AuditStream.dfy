/**
 * What a reader of the audit files finds: crates/bugwarden/src/audit.rs, the file
 * format the module documents, over every run from any files found on opening.
 */
module AuditStream {
  import opened Prelude
  import opened AuditModel
  import opened AuditLines
  import opened AuditRuns
  import AuditSpelling

  // ----- reading the files back -----

  /** The lines of slots `n` down to the live file, oldest first, each file split into lines on its own. */
  function ReadBack(enc: Encoder, d: Disk, n: nat): seq<Bytes> {
    (if n in d.slots then Lines(Content(enc, d.slots[n])) else []) + (if n == 0 then [] else ReadBack(enc, d, n - 1))
  }

  function SettledDisk(enc: Encoder, d: Disk): Disk {
    Disk(map n | n in d.slots :: Settled(enc, d.slots[n]), d.handle)
  }

  /** The parts a reader can tell apart, oldest first. */
  function Kept(cfg: Config, st: State): seq<Part> {
    Flat(SettledDisk(cfg.enc, st.disk), cfg.keep)
  }

  lemma {:induction false} ReadBackIsExpected(enc: Encoder, d: Disk, n: nat)
    requires LineSafe(enc) && AllHealing(enc, d)
    ensures ReadBack(enc, d, n) == Expected(enc, Flat(SettledDisk(enc, d), n))
  {
    var here := if n in d.slots then Settled(enc, d.slots[n]) else [];
    var below := if n == 0 then [] else Flat(SettledDisk(enc, d), n - 1);
    if n in d.slots {
      SettledLines(enc, d.slots[n]);
    }
    if n > 0 {
      ReadBackIsExpected(enc, d, n - 1);
    }
    ExpectedJoin(enc, here, below);
  }

  // ----- where a glued record can be -----

  /** The parts of slots `hi` down to just above `n`. */
  function Above(d: Disk, hi: nat, n: nat): seq<Part> {
    if hi <= n then [] else (if hi in d.slots then d.slots[hi] else []) + Above(d, hi - 1, n)
  }

  lemma {:induction false} FlatSplit(d: Disk, hi: nat, n: nat)
    requires n <= hi
    ensures Flat(d, hi) == Above(d, hi, n) + Flat(d, n)
  {
    if n < hi {
      FlatSplit(d, hi - 1, n);
      ConcatAssoc(if hi in d.slots then d.slots[hi] else [], Above(d, hi - 1, n), Flat(d, n));
    }
  }

  lemma {:induction false} AboveHolds(d: Disk, hi: nat, m: nat, n: nat)
    requires n < m <= hi && m in d.slots
    ensures |Above(d, hi, n)| >= |Above(d, hi, m)| + |d.slots[m]|
  {
    if m < hi {
      AboveHolds(d, hi - 1, m, n);
    }
  }

  lemma {:induction false} AboveAgrees(d: Disk, e: Disk, hi: nat, n: nat)
    requires forall j :: n < j <= hi ==> (j in d.slots <==> j in e.slots) && (j in d.slots ==> d.slots[j] == e.slots[j])
    ensures Above(d, hi, n) == Above(e, hi, n)
  {
    if n < hi {
      AboveAgrees(d, e, hi - 1, n);
    }
  }

  /** What slot `n` holds, and what lies below it. */
  function Below(d: Disk, n: nat): seq<Part> {
    if n == 0 then [] else Flat(d, n - 1)
  }

  lemma FlatAround(d: Disk, hi: nat, n: nat)
    requires n <= hi && n in d.slots
    ensures Flat(d, hi) == Above(d, hi, n) + d.slots[n] + Below(d, n)
  {
    FlatSplit(d, hi, n);
    ConcatAssoc(Above(d, hi, n), d.slots[n], Below(d, n));
  }

  /** A log that goes on from what was found with lines alone. */
  ghost predicate GoesOn(olds: seq<Part>, log: seq<Part>) {
    |olds| <= |log| && log[..|olds|] == olds && forall i :: |olds| <= i < |log| ==> log[i].Line?
  }

  ghost function GoesOnFrom(olds: seq<Part>): State -> bool {
    (s: State) => GoesOn(olds, s.log)
  }

  lemma GoesOnNext(olds: seq<Part>, log: seq<Part>, part: Part)
    requires GoesOn(olds, log) && part.Line?
    ensures GoesOn(olds, log + [part])
  {
    assert (log + [part])[..|olds|] == log[..|olds|];
  }

  lemma RunGoesOn(cfg: Config, st: State, calls: seq<Call>)
    requires ValidConfig(cfg) && cfg.hasFile
    ensures GoesOn(st.log, Run(cfg, st, calls).log)
  {
    var inv := GoesOnFrom(st.log);
    forall s, len, f | inv(s)
      ensures inv(MakeRoom(cfg, s, len, f).0)
    {
      MakeRoomFrame(cfg, s, len, f);
    }
    forall s, event, f | inv(s) && Fits(cfg, s, event)
      ensures inv(PutLine(cfg, s, event, f).0)
    {
      GoesOnNext(st.log, s.log, PartOf(cfg, s, event, f));
    }
    assert inv(st);
    RunStable(cfg, inv, AnyFault, st, calls);
    assert inv(Run(cfg, st, calls));
  }

  /** A record is glued only where what was found ends and what was written begins. */
  lemma GlueSpot(d: Disk, keep: nat, n: nat, olds: seq<Part>, log: seq<Part>)
    requires Suffix(Flat(d, keep), log) && GoesOn(olds, log) && AllOld(olds)
    requires n <= keep && n in d.slots && Glued(d.slots[n])
    ensures |log| - |Flat(d, keep)| + |Above(d, keep, n)| == |olds| - 1 && |olds| < |log|
    ensures d.slots[n][0] == olds[|olds| - 1] && d.slots[n][1] == log[|olds|]
  {
    var flat, a := Flat(d, keep), Above(d, keep, n);
    FlatAround(d, keep, n);
    var x := |log| - |flat| + |a|;
    assert flat[|a|] == d.slots[n][0] && flat[|a| + 1] == d.slots[n][1];
    assert log[x] == flat[|a|] && log[x + 1] == flat[|a| + 1];
  }

  lemma OneGlue(d: Disk, keep: nat, m: nat, n: nat, olds: seq<Part>, log: seq<Part>)
    requires Suffix(Flat(d, keep), log) && GoesOn(olds, log) && AllOld(olds)
    requires m <= keep && m in d.slots && Glued(d.slots[m])
    requires n <= keep && n in d.slots && Glued(d.slots[n])
    ensures m == n
  {
    GlueSpot(d, keep, m, olds, log);
    GlueSpot(d, keep, n, olds, log);
    if n < m {
      AboveHolds(d, keep, m, n);
    } else if m < n {
      AboveHolds(d, keep, n, m);
    }
  }

  /** The files are read as they were written, but for one glued record at most. */
  ghost predicate AllButOne(flat: seq<Part>, kept: seq<Part>, enc: Encoder, a: seq<Part>, live: Bytes, first: Part, b: seq<Part>) {
    && flat == a + [Old(live), first] + b && kept == a + [Old(live + BytesOf(enc, first))] + b
    && first.Line? && !first.healed && !Terminated(live)
  }

  lemma AroundBoth(cfg: Config, d: Disk, n: nat)
    requires n <= cfg.keep && n in d.slots
    requires forall m :: m <= cfg.keep && m in d.slots && Glued(d.slots[m]) ==> m == n
    ensures Flat(d, cfg.keep) == Above(d, cfg.keep, n) + d.slots[n] + Below(d, n)
    ensures Flat(SettledDisk(cfg.enc, d), cfg.keep) == Above(d, cfg.keep, n) + Settled(cfg.enc, d.slots[n]) + Below(d, n)
  {
    var e := SettledDisk(cfg.enc, d);
    FlatAround(d, cfg.keep, n);
    FlatAround(e, cfg.keep, n);
    AboveAgrees(d, e, cfg.keep, n);
    if n > 0 {
      FlatAgrees(d, e, n - 1);
    }
  }

  /** A glued file between what is above it and what is below. */
  lemma GluedBetween(enc: Encoder, above: seq<Part>, parts: seq<Part>, below: seq<Part>)
    requires Glued(parts)
    ensures AllButOne(above + parts + below, above + Settled(enc, parts) + below, enc,
                      above, parts[0].bytes, parts[1], parts[2..] + below)
  {
    var merged, both := [Old(parts[0].bytes + BytesOf(enc, parts[1]))], [Old(parts[0].bytes), parts[1]];
    assert parts == both + parts[2..];
    Regroup(above, both, parts[2..], below);
    Regroup(above, merged, parts[2..], below);
  }

  lemma Regroup<T>(a: seq<T>, x: seq<T>, y: seq<T>, b: seq<T>)
    ensures a + (x + y) + b == a + x + (y + b)
  {
  }

  lemma {:induction false} EndsWithLive(d: Disk, live: Part, n: nat)
    requires 0 in d.slots && d.slots[0] == [live]
    ensures var flat := Flat(d, n); |flat| > 0 && flat[|flat| - 1] == live
  {
    if n > 0 {
      EndsWithLive(d, live, n - 1);
      var here, below := if n in d.slots then d.slots[n] else [], Flat(d, n - 1);
      assert Flat(d, n) == here + below;
      assert (here + below)[|here + below| - 1] == below[|below| - 1];
    } else {
      assert Flat(d, 0) == [live] + [] == [live];
    }
  }

  lemma OpenedEnds(cfg: Config, found: map<nat, Bytes>, n: nat)
    requires OpensFile(cfg, found)
    ensures var flat := Flat(Opened(cfg, found).disk, n); AllOld(flat) && |flat| > 0 && flat[|flat| - 1] == Old(found[0])
  {
    OldFlat(Opened(cfg, found).disk, n);
    EndsWithLive(Opened(cfg, found).disk, Old(found[0]), n);
  }

  lemma TheGluedOne(cfg: Config, d: Disk, n: nat, olds: seq<Part>, live: Bytes, log: seq<Part>)
      returns (a: seq<Part>, b: seq<Part>)
    requires Suffix(Flat(d, cfg.keep), log) && GoesOn(olds, log) && AllOld(olds)
    requires |olds| > 0 && olds[|olds| - 1] == Old(live)
    requires n in d.slots && n <= cfg.keep && Glued(d.slots[n])
    ensures |olds| < |log|
    ensures AllButOne(Flat(d, cfg.keep), Flat(SettledDisk(cfg.enc, d), cfg.keep), cfg.enc, a, live, log[|olds|], b)
  {
    forall m | m <= cfg.keep && m in d.slots && Glued(d.slots[m])
      ensures m == n
    {
      OneGlue(d, cfg.keep, m, n, olds, log);
    }
    GlueSpot(d, cfg.keep, n, olds, log);
    AroundBoth(cfg, d, n);
    var parts := d.slots[n];
    a, b := Above(d, cfg.keep, n), parts[2..] + Below(d, n);
    GluedBetween(cfg.enc, a, parts, Below(d, n));
  }

  lemma NothingGlued(cfg: Config, d: Disk)
    requires forall n :: n in d.slots && n <= cfg.keep ==> !Glued(d.slots[n])
    ensures Flat(SettledDisk(cfg.enc, d), cfg.keep) == Flat(d, cfg.keep)
  {
    FlatAgrees(d, SettledDisk(cfg.enc, d), cfg.keep);
  }

  lemma RunFacts(cfg: Config, found: map<nat, Bytes>, calls: seq<Call>)
    requires OpensFile(cfg, found)
    ensures var start, st := Opened(cfg, found), Run(cfg, Opened(cfg, found), calls);
      && Suffix(Flat(st.disk, cfg.keep), st.log) && AllFaithful(cfg.enc, st.log) && AllHealing(cfg.enc, st.disk)
      && GoesOn(start.log, st.log) && AllOld(start.log)
      && |start.log| > 0 && start.log[|start.log| - 1] == Old(found[0])
  {
    OpenedIsGood(cfg, found);
    RunKeeps(cfg, Opened(cfg, found), calls);
    RunGoesOn(cfg, Opened(cfg, found), calls);
    OpenedEnds(cfg, found, cfg.keep);
  }

  /**
   * From any files found, over any run: either nothing is glued, or the one
   * record glued is the first ever put on a line, onto a live file that was
   * found unfinished. All else is kept apart.
   */
  lemma OnlyTheFirstIsGlued(cfg: Config, found: map<nat, Bytes>, calls: seq<Call>) returns (a: seq<Part>, b: seq<Part>)
    requires OpensFile(cfg, found)
    ensures var start, st := Opened(cfg, found), Run(cfg, Opened(cfg, found), calls);
      || Kept(cfg, st) == Flat(st.disk, cfg.keep)
      || (|st.log| > |start.log|
          && AllButOne(Flat(st.disk, cfg.keep), Kept(cfg, st), cfg.enc, a, found[0], st.log[|start.log|], b))
  {
    var start, st := Opened(cfg, found), Run(cfg, Opened(cfg, found), calls);
    var d := st.disk;
    RunFacts(cfg, found, calls);
    if n :| n in d.slots && n <= cfg.keep && Glued(d.slots[n]) {
      a, b := TheGluedOne(cfg, d, n, start.log, found[0], st.log);
    } else {
      a, b := [], [];
      NothingGlued(cfg, d);
    }
  }

  // ----- self-healing -----

  /**
   * Whatever was found, whatever fails, in whatever order: the surviving files
   * hold the most recent parts of everything written, and read back as one line
   * for each of the parts kept apart that shows anything; and those are all of
   * them if the live file was found finished.
   */
  lemma StreamHealsItself(cfg: Config, found: map<nat, Bytes>, calls: seq<Call>)
    requires OpensFile(cfg, found) && LineSafe(cfg.enc)
    ensures var st := Run(cfg, Opened(cfg, found), calls);
      && Suffix(Flat(st.disk, cfg.keep), st.log)
      && ReadBack(cfg.enc, st.disk, cfg.keep) == Expected(cfg.enc, Kept(cfg, st))
      && (Terminated(found[0]) ==> Kept(cfg, st) == Flat(st.disk, cfg.keep))
  {
    RunFacts(cfg, found, calls);
    ReadBackIsExpected(cfg.enc, Run(cfg, Opened(cfg, found), calls).disk, cfg.keep);
    var a, b := OnlyTheFirstIsGlued(cfg, found, calls);
  }

  lemma FaithfulSuffix(enc: Encoder, a: seq<Part>, b: seq<Part>)
    requires Suffix(a, b) && AllFaithful(enc, b)
    ensures AllFaithful(enc, a)
  {
    forall i | 0 <= i < |a|
      ensures Faithful(enc, a[i])
    {
      assert a[i] == b[|b| - |a| + i];
    }
  }

  lemma FaithfulAllButOne(flat: seq<Part>, kept: seq<Part>, enc: Encoder, a: seq<Part>, live: Bytes, first: Part, b: seq<Part>)
    requires AllButOne(flat, kept, enc, a, live, first, b) && AllFaithful(enc, flat)
    ensures AllFaithful(enc, kept)
  {
    forall i | 0 <= i < |kept|
      ensures Faithful(enc, kept[i])
    {
      if i < |a| {
        assert kept[i] == flat[i];
      } else if i > |a| {
        assert kept[i] == flat[i + 1];
      }
    }
  }

  lemma KeptIsFaithful(cfg: Config, found: map<nat, Bytes>, calls: seq<Call>)
    requires OpensFile(cfg, found)
    ensures AllFaithful(cfg.enc, Kept(cfg, Run(cfg, Opened(cfg, found), calls)))
  {
    var start, st := Opened(cfg, found), Run(cfg, Opened(cfg, found), calls);
    RunFacts(cfg, found, calls);
    FaithfulSuffix(cfg.enc, Flat(st.disk, cfg.keep), st.log);
    var a, b := OnlyTheFirstIsGlued(cfg, found, calls);
    if Kept(cfg, st) != Flat(st.disk, cfg.keep) {
      FaithfulAllButOne(Flat(st.disk, cfg.keep), Kept(cfg, st), cfg.enc, a, found[0], st.log[|start.log|], b);
    }
  }

  /** In particular every record written successfully, not rotated away and not glued is a line of its own, in its place. */
  lemma WrittenRecordIsALine(cfg: Config, found: map<nat, Bytes>, calls: seq<Call>, i: nat)
    requires OpensFile(cfg, found) && LineSafe(cfg.enc)
    requires var kept := Kept(cfg, Run(cfg, Opened(cfg, found), calls));
      i < |kept| && kept[i].Line? && kept[i].ok
    ensures var st := Run(cfg, Opened(cfg, found), calls);
      var kept := Kept(cfg, st);
      ReadBack(cfg.enc, st.disk, cfg.keep)
        == Expected(cfg.enc, kept[..i]) + [cfg.enc(kept[i].event)] + Expected(cfg.enc, kept[i + 1..])
  {
    StreamHealsItself(cfg, found, calls);
    KeptIsFaithful(cfg, found, calls);
    LineInPlace(cfg.enc, Kept(cfg, Run(cfg, Opened(cfg, found), calls)), i);
  }

  lemma LineInPlace(enc: Encoder, kept: seq<Part>, i: nat)
    requires LineSafe(enc) && AllFaithful(enc, kept) && i < |kept| && kept[i].Line? && kept[i].ok
    ensures Expected(enc, kept) == Expected(enc, kept[..i]) + [enc(kept[i].event)] + Expected(enc, kept[i + 1..])
  {
    var before, part, after := kept[..i], kept[i], kept[i + 1..];
    FaithfulIsComplete(enc, part);
    CompleteIsRead(enc, part);
    SplitOne(kept, i);
    ExpectedJoin(enc, before + [part], after);
    ExpectedLast(enc, before, part);
  }

  /** Lines that are no record: one for each torn write still there, so never more than failed, beside those not written here. */
  lemma TornLinesAreFailures(cfg: Config, found: map<nat, Bytes>, calls: seq<Call>)
    requires OpensFile(cfg, found) && LineSafe(cfg.enc)
    ensures var st := Run(cfg, Opened(cfg, found), calls);
      var kept := Kept(cfg, st);
      && Unparsable(cfg.enc, ReadBack(cfg.enc, st.disk, cfg.keep)) == TornWrites(cfg.enc, kept) + OldUnparsable(cfg.enc, kept)
      && TornWrites(cfg.enc, kept) <= FailedWrites(kept)
  {
    var kept := Kept(cfg, Run(cfg, Opened(cfg, found), calls));
    StreamHealsItself(cfg, found, calls);
    KeptIsFaithful(cfg, found, calls);
    TornLinesCounted(cfg.enc, kept);
    TornWritesFailed(cfg.enc, kept);
  }

  /** A write that fails after `out` bytes. */
  function TornAfter(out: nat): Fault {
    Fault(0, true, true, (n: nat) => true, true, true, Some(out), true, true)
  }

  /** A call during an outage: one write is tried, the gap's or its own, and tears. */
  lemma TornCall(cfg: Config, st: State, call: Call, out: nat)
    requires cfg.maxBytes == 0 && cfg.hasFile && !cfg.hasExport && call.gap == call.own == TornAfter(out)
    ensures var kind := if st.dropped > 0 then Gap(st.dropped, st.reason) else call.kind;
      var event := Event(st.number + 1, 0, kind);
      var part := Line(event, st.torn, Min(out, |LineOf(cfg.enc, event, st.torn)| - 1), false);
      Record(cfg, st, call).state
        == st.(disk := Append(st.disk, part), log := st.log + [part], torn := true,
               failing := true, dropped := SatAdd(st.dropped, 1), reason := WriteError)
  {
  }

  lemma CountNext(enc: Encoder, parts: seq<Part>, part: Part)
    ensures TornWrites(enc, parts + [part]) == TornWrites(enc, parts) + if Torn(enc, part) then 1 else 0
    ensures part.Line? ==> OldUnparsable(enc, parts + [part]) == OldUnparsable(enc, parts)
  {
    assert (parts + [part])[..|parts|] == parts;
  }

  lemma OpenedCounts(enc: Encoder)
    ensures TornWrites(enc, [Old([])]) == 0 && OldUnparsable(enc, [Old([])]) == 0
  {
    assert [Old([])][..0] == [];
    assert Lines([]) == [];
  }

  /** The state after a torn call, on the only file there is. */
  lemma TornCallAlone(cfg: Config, st: State, call: Call, out: nat) returns (after: State, part: Part)
    requires cfg.maxBytes == 0 && cfg.hasFile && !cfg.hasExport && call.gap == call.own == TornAfter(out)
    requires st.disk.handle == Some(0) && 0 in st.disk.slots && forall e :: |cfg.enc(e)| >= 2
    requires out == if st.torn then 2 else 1
    ensures after == Record(cfg, st, call).state && Torn(cfg.enc, part)
    ensures after.disk.handle == Some(0) && 0 in after.disk.slots
    ensures after.disk.slots[0] == st.disk.slots[0] + [part]
    ensures after.torn && after.number == st.number
  {
    TornCall(cfg, st, call, out);
    after := Record(cfg, st, call).state;
    part := after.log[|st.log|];
  }

  lemma RunTwo(cfg: Config, st: State, first: Call, second: Call)
    requires ValidConfig(cfg)
    ensures Run(cfg, st, [first, second]) == Record(cfg, Record(cfg, st, first).state, second).state
  {
    var calls := [first, second];
    assert calls[..1] == [first] && [first][..0] == [];
    assert Run(cfg, st, [first]) == Record(cfg, Run(cfg, st, []), first).state;
  }

  /** A second write torn in the same outage leaves a second torn line. */
  lemma OneOutageTwoTornLines(cfg: Config, first: Call, second: Call)
    requires OpensFile(cfg, map[0 := []]) && LineSafe(cfg.enc) && cfg.keep == cfg.maxBytes == 0 && !cfg.hasExport
    requires forall e :: |cfg.enc(e)| >= 2
    requires first.gap == first.own == TornAfter(1) && second.gap == second.own == TornAfter(2)
    ensures var st := Run(cfg, Opened(cfg, map[0 := []]), [first, second]);
      st.number == 0 && Unparsable(cfg.enc, ReadBack(cfg.enc, st.disk, 0)) == 2
  {
    var found := map[0 := []];
    var s0 := Opened(cfg, found);
    var s1, a := TornCallAlone(cfg, s0, first, 1);
    var s2, b := TornCallAlone(cfg, s1, second, 2);
    RunTwo(cfg, s0, first, second);
    var live := s0.disk.slots[0];
    assert live == [Old([])];
    OpenedCounts(cfg.enc);
    CountNext(cfg.enc, live, a);
    CountNext(cfg.enc, live + [a], b);
    assert Flat(s2.disk, 0) == live + [a] + [b];
    StreamHealsItself(cfg, found, [first, second]);
    TornLinesAreFailures(cfg, found, [first, second]);
  }

  /** There are such sinks and such outages. */
  lemma SuchAnOutage() returns (cfg: Config, first: Call, second: Call)
    ensures OpensFile(cfg, map[0 := []]) && LineSafe(cfg.enc)
    ensures var st := Run(cfg, Opened(cfg, map[0 := []]), [first, second]);
      st.number == 0 && Unparsable(cfg.enc, ReadBack(cfg.enc, st.disk, 0)) == 2
  {
    AuditSpelling.LineSafeSpelling();
    cfg := Config(0, 0, false, true, false, AuditSpelling.Spell);
    first := Call(Entry([]), 0, 0, TornAfter(1), TornAfter(1));
    second := Call(Entry([]), 0, 0, TornAfter(2), TornAfter(2));
    OneOutageTwoTornLines(cfg, first, second);
  }

  // ----- numbers on the lines -----

  lemma {:induction false} NumberAt(parts: seq<Part>, i: nat)
    requires Numbered(parts) && i < |parts| && parts[i].Line?
    ensures parts[i].event.number == Written(parts[..i]) + 1
  {
    var init := parts[..|parts| - 1];
    if i < |init| {
      NumberAt(init, i);
      assert init[..i] == parts[..i];
    }
  }

  lemma {:induction false} WrittenBetween(enc: Encoder, parts: seq<Part>, i: nat, j: nat)
    requires i < j <= |parts| && parts[i].Line? && AllFaithful(enc, parts)
    requires forall k :: i < k < j ==> !CompleteLine(enc, parts[k])
    ensures Written(parts[..j]) == Written(parts[..i]) + if parts[i].ok then 1 else 0
    decreases j
  {
    var head := parts[..j];
    assert head[..j - 1] == parts[..j - 1];
    if i + 1 < j {
      WrittenBetween(enc, parts, i, j - 1);
      if parts[j - 1].Line? && parts[j - 1].ok {
        FaithfulIsComplete(enc, parts[j - 1]);
      }
    }
  }

  /** From one record on file to the next, the number rises by one, or stays when the first one's write was not acknowledged. */
  lemma NumbersRise(cfg: Config, found: map<nat, Bytes>, calls: seq<Call>, i: nat, j: nat)
    requires OpensFile(cfg, found)
    requires var log := Run(cfg, Opened(cfg, found), calls).log;
      && i < j < |log| && CompleteLine(cfg.enc, log[i]) && CompleteLine(cfg.enc, log[j])
      && forall k :: i < k < j ==> !CompleteLine(cfg.enc, log[k])
    ensures var log := Run(cfg, Opened(cfg, found), calls).log;
      log[j].event.number == log[i].event.number + if log[i].ok then 1 else 0
  {
    var log := Run(cfg, Opened(cfg, found), calls).log;
    OpenedIsGood(cfg, found);
    RunKeeps(cfg, Opened(cfg, found), calls);
    NumberAt(log, i);
    NumberAt(log, j);
    WrittenBetween(cfg.enc, log, i, j);
  }

  // ----- what opening takes on trust -----

  /** A write nothing goes wrong with. */
  predicate Smooth(cfg: Config, f: Fault) {
    f.serialized && f.written.None? && (cfg.fsync ==> f.synced)
  }

  lemma FirstOnFile(enc: Encoder, live: Bytes, event: Event)
    requires LineSafe(enc)
    ensures var part := Line(event, false, |LineOf(enc, event, false)|, true);
      Lines(Content(enc, [Old(live), part])) == Lines(live) + [enc(event)] <==> Terminated(live)
  {
    var part := Line(event, false, |LineOf(enc, event, false)|, true);
    var spelt := enc(event);
    assert [Old(live)] + [part] == [Old(live), part];
    OldAlone(enc, live);
    AppendContent(enc, [Old(live)], part);
    GotOut(enc, part);
    assert BytesOf(enc, part) == spelt + [NL];
    SpeltOut(enc, event);
    if Terminated(live) {
      LinesJoin(live, spelt + [NL]);
      PartLines(enc, part);
      CompleteIsRead(enc, part);
    } else {
      GluedOn(live, spelt);
    }
  }

  /** The first call after opening, when nothing goes wrong with it and no rotation is due. */
  lemma FirstCall(cfg: Config, found: map<nat, Bytes>, call: Call, event: Event)
    requires OpensFile(cfg, found) && TakenBy(cfg, call) == 0 && Smooth(cfg, call.own)
    requires event == Event(1, call.own.stamp, call.kind)
    requires !RotationDue(cfg, Opened(cfg, found), |LineOf(cfg.enc, event, false)|)
    ensures var slots := Run(cfg, Opened(cfg, found), [call]).disk.slots;
      0 in slots && slots[0] == [Old(found[0]), Line(event, false, |LineOf(cfg.enc, event, false)|, true)]
  {
    var st := Opened(cfg, found);
    assert [call][..0] == [];
    assert Run(cfg, st, [call]) == Record(cfg, st, call).state;
    assert st.disk.slots[0] == [Old(found[0])];
  }

  /**
   * Opening assumes the live file ends where a line does. Exactly then is the
   * first record after opening, written to that file without a fault, a line
   * of its own after those that were there.
   */
  lemma FirstLineNeedsATerminatedFile(cfg: Config, found: map<nat, Bytes>, call: Call, event: Event)
    requires OpensFile(cfg, found) && LineSafe(cfg.enc)
    requires TakenBy(cfg, call) == 0 && Smooth(cfg, call.own) && event == Event(1, call.own.stamp, call.kind)
    requires !RotationDue(cfg, Opened(cfg, found), |LineOf(cfg.enc, event, false)|)
    ensures var slots := Run(cfg, Opened(cfg, found), [call]).disk.slots;
      0 in slots && (Lines(Content(cfg.enc, slots[0])) == Lines(found[0]) + [cfg.enc(event)] <==> Terminated(found[0]))
  {
    FirstCall(cfg, found, call, event);
    FirstOnFile(cfg.enc, found[0], event);
  }

  /** A record written onto an unfinished line makes one line with it. */
  lemma {:induction false} GluedOn(live: Bytes, spelt: Bytes)
    requires !Terminated(live) && NL !in spelt
    ensures |Lines(live + (spelt + [NL]))| == |Lines(live)|
  {
    LineEndSpot(live);
    var n := LineEnd(live);
    var p := live[..n];
    if n < |live| {
      var rest := live[n + 1..];
      SplitAtLine(live, spelt + [NL], n);
      NextLine(p, rest);
      NextLine(p, rest + (spelt + [NL]));
      GluedOn(rest, spelt);
    } else {
      var whole := live + spelt;
      assert live == p && NL !in whole;
      LastLine(live);
      ConcatAssoc(live, spelt, [NL]);
      NextLine(whole, []);
      assert whole + [NL] + [] == whole + [NL];
    }
  }
}
