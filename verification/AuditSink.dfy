/**
 * The audit sink as it is built: crates/bugwarden/src/audit.rs, `AuditSink` with
 * its `SinkState` and the files beside it, updated step by step. Each method is
 * shown to do what the function of the same name in AuditModel says, so that
 * what holds over every run of those functions holds of the sink's own bytes.
 */
module AuditSink {
  import opened Prelude
  import opened AuditModel
  import AuditLines
  import AuditRuns
  import AuditStream
  import AuditLoss

  /** The non-empty lines of the files from slot `n` down to the live one: oldest first. */
  function LinesIn(files: map<nat, Bytes>, n: nat): seq<Bytes> {
    (if n in files then AuditLines.Lines(files[n]) else []) + (if n == 0 then [] else LinesIn(files, n - 1))
  }

  /** Files that hold what the parts spell. */
  ghost predicate Spells(enc: Encoder, files: map<nat, Bytes>, slots: map<nat, seq<Part>>) {
    files.Keys == slots.Keys && forall n :: n in files ==> files[n] == Content(enc, slots[n])
  }

  /** Payloads that are the records of these events. */
  ghost predicate Carries(enc: Encoder, sent: seq<Bytes>, events: seq<Event>) {
    |sent| == |events| && forall i :: 0 <= i < |sent| ==> sent[i] == enc(events[i])
  }

  class AuditSink {
    const cfg: Config

    // The directory: the kept files by slot, and the slot of the open one.
    var files: map<nat, Bytes>
    var open: Option<nat>

    // What the lock guards.
    var size: nat
    var number: nat
    var dropped: nat
    var gapReason: GapReason
    var torn: bool

    // The mirror the gate reads, and what the exporter took.
    var failingFlag: bool
    var sent: seq<Bytes>

    // What was there on opening, and every call since.
    ghost const found: map<nat, Bytes>
    ghost var history: seq<Call>

    ghost predicate Openable() {
      ValidConfig(cfg) && (cfg.hasFile ==> 0 in found)
    }

    ghost predicate ShowsDisk(d: Disk)
      reads this
    {
      open == d.handle && Spells(cfg.enc, files, d.slots)
    }

    /** The counters and flags are those of the model state. */
    ghost predicate ShowsCounts(st: State)
      reads this
    {
      && size == st.size && number == st.number && dropped == st.dropped
      && gapReason == st.reason && torn == st.torn && failingFlag == st.failing
    }

    ghost predicate Shows(st: State)
      reads this
    {
      ShowsDisk(st.disk) && ShowsCounts(st) && Carries(cfg.enc, sent, st.exported)
    }

    /** The state the calls so far lead to. */
    ghost function Model(): State
      reads this
      requires Openable()
    {
      Run(cfg, Opened(cfg, found), history)
    }

    ghost predicate Valid()
      reads this
    {
      Openable() && Shows(Model())
    }

    constructor Open(config: Config, onDisk: map<nat, Bytes>)
      requires ValidConfig(config) && (config.hasFile ==> 0 in onDisk)
      ensures Valid() && cfg == config && found == onDisk && history == []
    {
      cfg := config;
      files := if config.hasFile then onDisk else map[];
      open := if config.hasFile then Some(0) else None;
      size := if config.hasFile then |onDisk[0]| else 0;
      number, dropped, gapReason, torn := 0, 0, WriteError, false;
      failingFlag, sent := false, [];
      found, history := onDisk, [];
      new;
      forall n | n in files
        ensures files[n] == Content(cfg.enc, Opened(cfg, found).disk.slots[n])
      {
        assert [Old(onDisk[n])][..0] == [];
      }
    }

    /** One rename, of a file that may not be there. */
    method Rename(from: nat, to: nat, ghost d: Disk)
      requires ShowsDisk(d) && to !in d.slots
      modifies this`files, this`open
      ensures ShowsDisk(Move(d, from, to))
    {
      if from in files {
        files := (files - {from})[to := files[from]];
        if open == Some(from) {
          open := Some(to);
        }
      }
    }

    /** The renames of a rotation. */
    method ShiftFiles(f: Fault, ghost d: Disk) returns (ok: bool)
      requires ShowsDisk(d) && cfg.keep >= 1
      modifies this`files, this`open
      ensures ShowsDisk(ShiftAll(cfg, d, f).disk) && ok == ShiftAll(cfg, d, f).ok
    {
      if !f.removed {
        return false;
      }
      files := files - {cfg.keep};
      if open == Some(cfg.keep) {
        open := None;
      }
      ghost var first := Remove(d, cfg.keep);
      ghost var at := first;
      var n := cfg.keep;
      while n >= 2
        invariant 1 <= n <= cfg.keep
        invariant n !in at.slots && ShowsDisk(at)
        invariant Shift(first, cfg.keep, f) == Shift(at, n, f)
      {
        if !f.renamed(n) {
          return false;
        }
        Rename(n - 1, n, at);
        at := Move(at, n - 1, n);
        n := n - 1;
      }
      if !f.renamed(1) {
        return false;
      }
      Rename(0, 1, at);
      return true;
    }

    method Rotate(f: Fault, ghost st: State) returns (ok: bool, ghost after: State)
      requires Shows(st) && cfg.keep >= 1
      modifies this`files, this`open, this`size
      ensures (after, ok) == AuditModel.Rotate(cfg, st, f) && Shows(after)
    {
      var shifted := ShiftFiles(f, st.disk);
      after := st.(disk := ShiftAll(cfg, st.disk, f).disk);
      if !shifted || !f.reopened {
        ok := false;
        return;
      }
      files := files[0 := []];
      open := Some(0);
      size := 0;
      ok := f.dirSynced;
      after := st.(disk := Disk(after.disk.slots[0 := []], Some(0)), size := 0);
    }

    /** Append bytes to the open file, wherever its name is by now. */
    method AppendBytes(bytes: Bytes, ghost d: Disk, ghost part: Part)
      requires ShowsDisk(d) && bytes == BytesOf(cfg.enc, part)
      modifies this`files
      ensures ShowsDisk(Append(d, part))
    {
      if open.Some? && open.value in files {
        ghost var parts := d.slots[open.value];
        assert (parts + [part])[..|parts|] == parts;
        files := files[open.value := files[open.value] + bytes];
      }
    }

    /** A write that fails after some of the line is out. */
    method WriteTorn(line: Bytes, count: nat, f: Fault, ghost st: State, ghost event: Event)
      requires Shows(st) && line == LineOf(cfg.enc, event, torn) && f.written == Some(count)
      modifies this`files, this`torn
      ensures Shows(WriteLine(cfg, st, event, f).0)
    {
      var out := Min(count, |line| - 1);
      AppendBytes(line[..out], st.disk, Line(event, torn, out, false));
      torn := true;
    }

    /** Write and sync one line. */
    method WriteOut(line: Bytes, f: Fault, ghost st: State, ghost event: Event) returns (ok: bool, ghost after: State)
      requires Shows(st) && line == LineOf(cfg.enc, event, torn)
      modifies this`files, this`size, this`torn
      ensures (after, ok) == WriteLine(cfg, st, event, f) && Shows(after)
    {
      after := WriteLine(cfg, st, event, f).0;
      if f.written.Some? {
        WriteTorn(line, f.written.value, f, st, event);
        ok := false;
        return;
      }
      ok := !cfg.fsync || f.synced;
      AppendBytes(line, st.disk, Line(event, torn, |line|, ok));
      if ok {
        size := size + |line|;
      } else {
        torn := true;
      }
    }

    /** Write the line, spend its number, hand the record over. */
    method Put(line: Bytes, f: Fault, ghost st: State, event: Event)
        returns (r: Result<nat, AuditError>, ghost after: State)
      requires Shows(st) && line == LineOf(cfg.enc, event, torn)
      modifies this`files, this`size, this`torn, this`number, this`sent
      ensures (after, r) == PutLine(cfg, st, event, f) && Shows(after)
    {
      var healed := torn;
      after := st;
      if cfg.hasFile {
        var ok;
        ok, after := WriteOut(line, f, st, event);
        if !ok {
          r := Err(WriteFailed);
          return;
        }
      }
      torn := false;
      number := event.number;
      after := after.(torn := false, number := event.number);
      if cfg.hasExport {
        AuditLoss.ExportedBytesAreTheRecord(cfg.enc, event, healed);
        var payload := ExportRecordBytes(line, healed);
        if payload.None? || !f.accepted {
          r := Err(ExportRefused);
          return;
        }
        sent := sent + [payload.value];
        after := after.(exported := after.exported + [event]);
      }
      r := Ok(event.number);
    }

    /** Rotate when the line would not fit. */
    method EnsureRoom(len: nat, f: Fault, ghost st: State) returns (ok: bool, ghost after: State)
      requires Shows(st) && ValidConfig(cfg)
      modifies this`files, this`open, this`size
      ensures (after, ok) == MakeRoom(cfg, st, len, f) && Shows(after)
    {
      ok, after := true, st;
      if cfg.maxBytes > 0 && size > 0 && size + len > cfg.maxBytes {
        ok, after := Rotate(f, st);
      }
    }

    /** Stamp, spell, make room, write. */
    method WriteEvent(kind: Kind, f: Fault, ghost st: State)
        returns (r: Result<nat, AuditError>, ghost after: State)
      requires Shows(st) && ValidConfig(cfg)
      modifies this`files, this`open, this`size, this`torn, this`number, this`sent
      ensures (after, r) == AuditModel.WriteEvent(cfg, st, kind, f) && Shows(after)
    {
      after := st;
      if !f.serialized {
        r := Err(SerializeError);
        return;
      }
      var event := Event(number + 1, f.stamp, kind);
      var line := LineOf(cfg.enc, event, torn);
      var fits;
      fits, after := EnsureRoom(|line|, f, st);
      if !fits {
        r := Err(RotationFailed);
        return;
      }
      r, after := Put(line, f, after, event);
    }

    /** Take over what the exporter lost: `peeked` when looked at, `taken` when taken. */
    method AbsorbExportLosses(call: Call, ghost st: State)
      requires Shows(st)
      modifies this`dropped, this`gapReason, this`failingFlag
      ensures Shows(Absorb(cfg, st, call))
    {
      if cfg.hasExport {
        if call.peeked > 0 {
          failingFlag := true;
        }
        if call.taken > 0 {
          dropped := SatAdd(dropped, call.taken);
          gapReason := WriteError;
          failingFlag := true;
        }
      }
    }

    method CountFailure(e: AuditError, ghost st: State)
      requires Shows(st)
      modifies this`dropped, this`gapReason, this`failingFlag
      ensures Shows(Lost(st, e))
    {
      failingFlag := true;
      dropped := SatAdd(dropped, 1);
      gapReason := ReasonOf(e);
    }

    /** Report the losses pending, before anything else is written. */
    method ReportGap(f: Fault, ghost st: State) returns (r: Result<nat, AuditError>, ghost after: State)
      requires Shows(st) && ValidConfig(cfg) && st.dropped > 0
      modifies this
      ensures history == old(history) && Shows(after)
      ensures var (written, result) := AuditModel.WriteEvent(cfg, st, Gap(st.dropped, st.reason), f);
        && r == result
        && after == if result.Ok? then written.(dropped := 0, failing := false) else Lost(written, result.error)
    {
      r, after := WriteEvent(Gap(dropped, gapReason), f, st);
      if r.Ok? {
        dropped := 0;
        failingFlag := false;
        after := after.(dropped := 0, failing := false);
      } else {
        CountFailure(r.error, after);
        after := Lost(after, r.error);
      }
    }

    /** The event itself. */
    method WriteOwn(call: Call, ghost st: State) returns (r: Result<nat, AuditError>, ghost after: State)
      requires Shows(st) && ValidConfig(cfg)
      modifies this
      ensures history == old(history) && Shows(after)
      ensures var o := OwnWrite(cfg, st, call, 0); after == o.state && r == o.result
    {
      r, after := WriteEvent(call.kind, call.own, st);
      if r.Err? {
        CountFailure(r.error, after);
        after := Lost(after, r.error);
      }
    }

    /** Record one event. */
    method Record(call: Call) returns (r: Result<nat, AuditError>)
      requires Valid()
      modifies this
      ensures Valid() && history == old(history) + [call]
      ensures Model() == AuditModel.Record(cfg, old(Model()), call).state
      ensures r == AuditModel.Record(cfg, old(Model()), call).result
    {
      ghost var after;
      r, after := RecordFrom(call, Model());
      RunNext(cfg, Opened(cfg, found), history, call);
      history := history + [call];
    }

    /** The steps of a call: absorb, report what is pending, write. */
    method RecordFrom(call: Call, ghost st: State) returns (r: Result<nat, AuditError>, ghost after: State)
      requires Shows(st) && ValidConfig(cfg)
      modifies this
      ensures history == old(history) && Shows(after)
      ensures var o := AuditModel.Record(cfg, st, call); after == o.state && r == o.result
    {
      AbsorbExportLosses(call, st);
      after := Absorb(cfg, st, call);
      if dropped > 0 {
        r, after := ReportGap(call.gap, after);
        if r.Err? {
          return;
        }
      }
      r, after := WriteOwn(call, after);
    }

    /**
     * The gate, asked between calls: it is closed exactly while losses are
     * pending here or with the exporter, or delivery is not working.
     */
    method Failing(lost: nat, deliveryFailing: bool) returns (closed: bool)
      requires Valid() && forall i :: 0 <= i < |history| ==> Consistent(history[i])
      ensures closed <==> Model().dropped > 0 || (cfg.hasExport && (lost > 0 || deliveryFailing))
    {
      AuditLoss.MirrorHolds(cfg, Opened(cfg, found), history);
      if cfg.hasExport && lost > 0 {
        return true;
      }
      if failingFlag {
        return true;
      }
      return cfg.hasExport && deliveryFailing;
    }
  }

  lemma RunNext(cfg: Config, st: State, calls: seq<Call>, call: Call)
    requires ValidConfig(cfg)
    ensures Run(cfg, st, calls + [call]) == AuditModel.Record(cfg, Run(cfg, st, calls), call).state
  {
    assert (calls + [call])[..|calls|] == calls;
  }

  // ----- what a sink's own files hold -----

  lemma {:induction false} LinesOfSpelt(enc: Encoder, files: map<nat, Bytes>, d: Disk, n: nat)
    requires Spells(enc, files, d.slots)
    ensures LinesIn(files, n) == AuditStream.ReadBack(enc, d, n)
  {
    if n > 0 {
      LinesOfSpelt(enc, files, d, n - 1);
    }
  }

  /**
   * The bytes of any sink with a file, whatever was there and whatever happened
   * to it: a line for each recent write that shows anything, in order, but for
   * a first record glued to a live file found unfinished.
   */
  lemma SinkHealsItself(sink: AuditSink)
    requires sink.Valid() && sink.cfg.hasFile && LineSafe(sink.cfg.enc)
    ensures LinesIn(sink.files, sink.cfg.keep) == AuditLines.Expected(sink.cfg.enc, AuditStream.Kept(sink.cfg, sink.Model()))
    ensures AuditRuns.Suffix(Flat(sink.Model().disk, sink.cfg.keep), sink.Model().log)
    ensures AuditLines.Terminated(sink.found[0]) ==>
              AuditStream.Kept(sink.cfg, sink.Model()) == Flat(sink.Model().disk, sink.cfg.keep)
  {
    AuditStream.StreamHealsItself(sink.cfg, sink.found, sink.history);
    LinesOfSpelt(sink.cfg.enc, sink.files, sink.Model().disk, sink.cfg.keep);
  }
}
