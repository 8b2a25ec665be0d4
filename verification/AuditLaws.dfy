/**
 * When the audit sink rotates, when it acknowledges, and what it then holds:
 * crates/bugwarden/src/audit.rs, `write_event` and `record` as documented, said
 * of the bytes in the files.
 */
module AuditLaws {
  import opened Prelude
  import opened AuditModel
  import opened AuditLines
  import opened AuditRuns
  import opened AuditRotation
  import opened AuditLoss

  // ----- acknowledgement -----

  lemma {:induction false} ShiftOkIff(d: Disk, n: nat, f: Fault)
    requires n >= 1 && n !in d.slots
    ensures Shift(d, n, f).ok <==> forall k :: 2 <= k <= n ==> f.renamed(k)
    decreases n
  {
    if n > 1 && f.renamed(n) {
      ShiftOkIff(Move(d, n - 1, n), n - 1, f);
    }
  }

  /** Every step of a rotation succeeds. */
  predicate RotationSucceeds(cfg: Config, f: Fault) {
    f.removed && (forall k :: 1 <= k <= cfg.keep ==> f.renamed(k)) && f.reopened && f.dirSynced
  }

  lemma RotateOkIff(cfg: Config, st: State, f: Fault)
    requires cfg.keep >= 1
    ensures Rotate(cfg, st, f).1 <==> RotationSucceeds(cfg, f)
  {
    var d := Remove(st.disk, cfg.keep);
    ShiftOkIff(d, cfg.keep, f);
  }

  /** The length of an event's line, the repair newline in front of it included. */
  function LineLength(cfg: Config, st: State, event: Event): nat {
    |cfg.enc(event)| + 1 + if st.torn then 1 else 0
  }

  /** The limit would be passed by a file that is not empty. */
  predicate Full(cfg: Config, size: nat, len: nat) {
    cfg.maxBytes > 0 && size > 0 && size + len > cfg.maxBytes
  }

  /**
   * An event is acknowledged exactly when it could be spelt, a rotation its line
   * called for succeeded in full, the file took the line and, if asked to, synced
   * it, and the exporter accepted it; and the error names the first of these
   * that failed.
   */
  lemma AcknowledgedIff(cfg: Config, st: State, kind: Kind, f: Fault)
    requires ValidConfig(cfg)
    ensures var len := LineLength(cfg, st, Event(st.number + 1, f.stamp, kind));
      WriteEvent(cfg, st, kind, f).1 ==
        if !f.serialized then Err(SerializeError)
        else if Full(cfg, st.size, len) && !RotationSucceeds(cfg, f) then Err(RotationFailed)
        else if cfg.hasFile && (f.written.Some? || (cfg.fsync && !f.synced)) then Err(WriteFailed)
        else if cfg.hasExport && !f.accepted then Err(ExportRefused)
        else Ok(st.number + 1)
  {
    var event := Event(st.number + 1, f.stamp, kind);
    assert |LineOf(cfg.enc, event, st.torn)| == LineLength(cfg, st, event);
    if Full(cfg, st.size, LineLength(cfg, st, event)) {
      RotateOkIff(cfg, st, f);
    }
  }

  /** A call that succeeds leaves its own record last on file, and last with the exporter, under the number it returns. */
  lemma AcknowledgedIsLast(cfg: Config, st: State, call: Call)
    requires ValidConfig(cfg) && Record(cfg, st, call).result.Ok?
    ensures var o := Record(cfg, st, call);
      && o.state.number == o.result.value
      && (cfg.hasFile ==> o.state.log != [] && OnFile(cfg, o.state.log[|o.state.log| - 1], o.result.value, call.kind))
      && (cfg.hasExport ==> (o.state.exported != []
            && o.state.exported[|o.state.exported| - 1] == Event(o.result.value, call.own.stamp, call.kind)))
  {
    var ready := Absorb(cfg, st, call);
    if ready.dropped == 0 {
      EventIsLast(cfg, ready, call.kind, call.own);
    } else {
      var (after, result) := WriteEvent(cfg, ready, Gap(ready.dropped, ready.reason), call.gap);
      EventIsLast(cfg, after.(dropped := 0, failing := false), call.kind, call.own);
    }
  }

  lemma EventIsLast(cfg: Config, st: State, kind: Kind, f: Fault)
    requires ValidConfig(cfg) && WriteEvent(cfg, st, kind, f).1.Ok?
    ensures var (after, result) := WriteEvent(cfg, st, kind, f);
      && after.number == result.value == st.number + 1
      && (cfg.hasFile ==> after.log != [] && OnFile(cfg, after.log[|after.log| - 1], result.value, kind))
      && (cfg.hasExport ==> after.exported == st.exported + [Event(result.value, f.stamp, kind)])
  {
    if cfg.hasFile {
      WriteEventOnFile(cfg, st, kind, f);
    }
  }

  lemma LostTellsWhy(st: State, e: AuditError)
    ensures var after := Lost(st, e);
      after.dropped > 0 && after.failing && after.reason == if e == RotationFailed then RotationError else WriteError
  {
  }

  /** What a failed call leaves pending says why: a rotation that failed, or else a write. */
  lemma FailureTellsWhy(cfg: Config, st: State, call: Call)
    requires ValidConfig(cfg) && Record(cfg, st, call).result.Err?
    ensures var o := Record(cfg, st, call);
      && o.state.dropped > 0 && o.state.failing
      && o.state.reason == if o.result.error == RotationFailed then RotationError else WriteError
  {
    var ready := Absorb(cfg, st, call);
    var error := Record(cfg, st, call).result.error;
    if ready.dropped == 0 {
      LostTellsWhy(WriteEvent(cfg, ready, call.kind, call.own).0, error);
    } else {
      var (after, result) := WriteEvent(cfg, ready, Gap(ready.dropped, ready.reason), call.gap);
      LostTellsWhy(if result.Err? then after else WriteEvent(cfg, after.(dropped := 0, failing := false), call.kind, call.own).0, error);
    }
  }

  // ----- the size -----

  /** The size counted is never more than the open file's, and is the file's while no write has failed. */
  ghost predicate SizeBelow(cfg: Config, st: State) {
    Good(cfg, st) && (st.disk.handle.Some? ==> st.size <= |Content(cfg.enc, OpenParts(st.disk))|)
  }

  ghost predicate SizeRight(cfg: Config, st: State) {
    Good(cfg, st) && !st.torn && (st.disk.handle.Some? ==> st.size == |Content(cfg.enc, OpenParts(st.disk))|)
  }

  lemma LineGrows(cfg: Config, st: State, event: Event, f: Fault)
    requires Good(cfg, st) && event.number == st.number + 1
    ensures var part := PartOf(cfg, st, event, f);
      var after := Append(st.disk, part);
      after.handle.Some? ==> |Content(cfg.enc, OpenParts(after))| == |Content(cfg.enc, OpenParts(st.disk))| + part.out
  {
    var part := PartOf(cfg, st, event, f);
    assert |BytesOf(cfg.enc, part)| == part.out;
    if st.disk.handle.Some? {
      AppendContent(cfg.enc, OpenParts(st.disk), part);
    }
  }

  lemma RotateSizes(cfg: Config, st: State, f: Fault)
    requires cfg.keep >= 1 && Good(cfg, st)
    ensures SizeBelow(cfg, st) ==> SizeBelow(cfg, Rotate(cfg, st, f).0)
    ensures SizeRight(cfg, st) ==> SizeRight(cfg, Rotate(cfg, st, f).0)
  {
    RotateKeeps(cfg, st, f);
    ShiftAllKeeps(cfg, st.disk, f);
  }

  lemma PutLineSizes(cfg: Config, st: State, event: Event, f: Fault)
    requires cfg.hasFile && Good(cfg, st) && event.number == st.number + 1
    ensures SizeBelow(cfg, st) ==> SizeBelow(cfg, PutLine(cfg, st, event, f).0)
    ensures SizeRight(cfg, st) && NoTear(f) ==> SizeRight(cfg, PutLine(cfg, st, event, f).0)
  {
    PutLineKeeps(cfg, st, event, f);
    LineGrows(cfg, st, event, f);
  }

  ghost function BelowFor(cfg: Config): State -> bool {
    (s: State) => SizeBelow(cfg, s)
  }

  ghost function RightFor(cfg: Config): State -> bool {
    (s: State) => SizeRight(cfg, s)
  }

  lemma BelowIsStable(cfg: Config)
    requires ValidConfig(cfg) && cfg.hasFile
    ensures Stable(cfg, BelowFor(cfg), AnyFault)
  {
    var inv := BelowFor(cfg);
    forall s, len, f | inv(s)
      ensures inv(MakeRoom(cfg, s, len, f).0)
    {
      if RotationDue(cfg, s, len) {
        RotateSizes(cfg, s, f);
      }
    }
    forall s, event, f | inv(s) && Fits(cfg, s, event)
      ensures inv(PutLine(cfg, s, event, f).0)
    {
      PutLineSizes(cfg, s, event, f);
    }
    forall s, dropped, reason, failing | inv(s)
      ensures inv(Counting(s, dropped, reason, failing))
    {
    }
  }

  lemma RightIsStable(cfg: Config)
    requires ValidConfig(cfg) && cfg.hasFile
    ensures Stable(cfg, RightFor(cfg), NoTear)
  {
    var inv := RightFor(cfg);
    forall s, len, f | inv(s) && NoTear(f)
      ensures inv(MakeRoom(cfg, s, len, f).0)
    {
      if RotationDue(cfg, s, len) {
        RotateSizes(cfg, s, f);
      }
    }
    forall s, event, f | inv(s) && NoTear(f) && Fits(cfg, s, event)
      ensures inv(PutLine(cfg, s, event, f).0)
    {
      PutLineSizes(cfg, s, event, f);
    }
    forall s, dropped, reason, failing | inv(s)
      ensures inv(Counting(s, dropped, reason, failing))
    {
    }
  }

  lemma OpenedSize(cfg: Config, found: map<nat, Bytes>)
    requires OpensFile(cfg, found)
    ensures SizeBelow(cfg, Opened(cfg, found)) && SizeRight(cfg, Opened(cfg, found))
  {
    OpenedIsGood(cfg, found);
    OldAlone(cfg.enc, found[0]);
  }

  /** Over every run the size counted is at most the open file's, so nothing rotates early. */
  lemma SizeNeverOver(cfg: Config, found: map<nat, Bytes>, calls: seq<Call>)
    requires OpensFile(cfg, found)
    ensures SizeBelow(cfg, Run(cfg, Opened(cfg, found), calls))
  {
    var st, inv := Opened(cfg, found), BelowFor(cfg);
    OpenedSize(cfg, found);
    BelowIsStable(cfg);
    assert inv(st);
    RunStable(cfg, inv, AnyFault, st, calls);
    assert inv(Run(cfg, st, calls));
  }

  /** And as long as no write and no sync fails it is the open file's. */
  lemma SizeIsTheFiles(cfg: Config, found: map<nat, Bytes>, calls: seq<Call>)
    requires OpensFile(cfg, found) && NoneTears(calls)
    ensures SizeRight(cfg, Run(cfg, Opened(cfg, found), calls))
  {
    var st, inv := Opened(cfg, found), RightFor(cfg);
    OpenedSize(cfg, found);
    RightIsStable(cfg);
    assert inv(st);
    RunStable(cfg, inv, NoTear, st, calls);
    assert inv(Run(cfg, st, calls));
  }

  // ----- rotation, on the bytes -----

  /** The files are as they were, but that the open one has more at its end. */
  ghost predicate OnlyAppended(enc: Encoder, d: Disk, e: Disk, more: Bytes) {
    && e.handle == d.handle && e.slots.Keys == d.slots.Keys
    && (forall k :: k in d.slots && d.handle != Some(k) ==> e.slots[k] == d.slots[k])
    && (d.handle.Some? ==> (d.handle.value in d.slots
          && Content(enc, e.slots[d.handle.value]) == Content(enc, d.slots[d.handle.value]) + more))
  }

  lemma AppendOnly(cfg: Config, d: Disk, part: Part)
    requires d.handle.Some? && d.handle.value in d.slots
    ensures OnlyAppended(cfg.enc, d, Append(d, part), BytesOf(cfg.enc, part))
  {
    AppendContent(cfg.enc, d.slots[d.handle.value], part);
  }

  /** What writing an event does once there is room for its line. */
  lemma RoomyWrite(cfg: Config, st: State, event: Event, f: Fault)
    requires cfg.hasFile && st.disk.handle.Some? && st.disk.handle.value in st.disk.slots
    ensures var part := PartOf(cfg, st, event, f);
      OnlyAppended(cfg.enc, st.disk, PutLine(cfg, st, event, f).0.disk, BytesOf(cfg.enc, part))
  {
    AppendOnly(cfg, st.disk, PartOf(cfg, st, event, f));
  }

  /** The bytes in the open file. */
  function Here(cfg: Config, st: State): nat {
    |Content(cfg.enc, OpenParts(st.disk))|
  }

  /** A line of this length may go into a file of that one: there is no limit, the file is empty, or both fit the limit. */
  predicate Roomy(cfg: Config, here: nat, len: nat) {
    cfg.maxBytes == 0 || here == 0 || here + len <= cfg.maxBytes
  }

  function NextEvent(st: State, kind: Kind, f: Fault): Event {
    Event(st.number + 1, f.stamp, kind)
  }

  /** As much of an event's line as a write puts out: all, or what it failed after, which is never all. */
  function PutOut(cfg: Config, st: State, event: Event, f: Fault): Bytes {
    var line := (if st.torn then [NL] else []) + cfg.enc(event) + [NL];
    match f.written
    case None => line
    case Some(k) => line[..if k < |line| then k else |line| - 1]
  }

  lemma PartIsPutOut(cfg: Config, st: State, event: Event, f: Fault)
    ensures BytesOf(cfg.enc, PartOf(cfg, st, event, f)) == PutOut(cfg, st, event, f)
  {
  }

  lemma RoomyIsNotDue(cfg: Config, st: State, event: Event)
    requires SizeBelow(cfg, st) && st.disk.handle.Some? && Roomy(cfg, Here(cfg, st), LineLength(cfg, st, event))
    ensures !RotationDue(cfg, st, |LineOf(cfg.enc, event, st.torn)|)
  {
    assert |LineOf(cfg.enc, event, st.torn)| == LineLength(cfg, st, event);
  }

  lemma UnrotatedWrite(cfg: Config, st: State, kind: Kind, f: Fault)
    requires ValidConfig(cfg) && f.serialized
    requires !RotationDue(cfg, st, |LineOf(cfg.enc, NextEvent(st, kind, f), st.torn)|)
    ensures WriteEvent(cfg, st, kind, f) == PutLine(cfg, st, NextEvent(st, kind, f), f)
  {
  }

  lemma RoomyEvent(cfg: Config, st: State, kind: Kind, f: Fault)
    requires ValidConfig(cfg) && cfg.hasFile && f.serialized && SizeBelow(cfg, st) && st.disk.handle.Some?
    requires Roomy(cfg, Here(cfg, st), LineLength(cfg, st, NextEvent(st, kind, f)))
    ensures OnlyAppended(cfg.enc, st.disk, WriteEvent(cfg, st, kind, f).0.disk, PutOut(cfg, st, NextEvent(st, kind, f), f))
  {
    var event := NextEvent(st, kind, f);
    RoomyIsNotDue(cfg, st, event);
    UnrotatedWrite(cfg, st, kind, f);
    RoomyWrite(cfg, st, event, f);
    PartIsPutOut(cfg, st, event, f);
  }

  /**
   * Whatever failed before: a line for which there is room in the open file, or
   * that finds the file empty, or that meets no limit, only adds to that file. No
   * name moves and nothing is deleted.
   */
  lemma RoomMeansNoRotation(cfg: Config, found: map<nat, Bytes>, calls: seq<Call>, kind: Kind, f: Fault)
    requires OpensFile(cfg, found) && f.serialized && Run(cfg, Opened(cfg, found), calls).disk.handle.Some?
    requires var st := Run(cfg, Opened(cfg, found), calls);
      Roomy(cfg, Here(cfg, st), LineLength(cfg, st, NextEvent(st, kind, f)))
    ensures var st := Run(cfg, Opened(cfg, found), calls);
      OnlyAppended(cfg.enc, st.disk, WriteEvent(cfg, st, kind, f).0.disk, PutOut(cfg, st, NextEvent(st, kind, f), f))
  {
    SizeNeverOver(cfg, found, calls);
    RoomyEvent(cfg, Run(cfg, Opened(cfg, found), calls), kind, f);
  }

  /** Every file has moved up one, and the live one holds just this line. */
  ghost predicate MovedUp(cfg: Config, d: Disk, e: Disk, line: Bytes) {
    && e.handle == Some(0) && 0 in e.slots && Content(cfg.enc, e.slots[0]) == line
    && (forall k :: 1 <= k <= cfg.keep ==> UpOne(e, k, d))
    && (forall k :: k > cfg.keep ==> Untouched(e, k, d))
  }

  lemma WriteAfterRotation(cfg: Config, st: State, event: Event, f: Fault)
    requires cfg.hasFile && cfg.keep >= 1 && Rotate(cfg, st, f).1 && NoTear(f) && !st.torn
    ensures MovedUp(cfg, st.disk, PutLine(cfg, Rotate(cfg, st, f).0, event, f).0.disk, cfg.enc(event) + [NL])
  {
    var rotated := Rotate(cfg, st, f).0;
    RotationShiftsByOne(cfg, st, f);
    var part := PartOf(cfg, rotated, event, f);
    AppendOnly(cfg, rotated.disk, part);
    assert rotated.torn == st.torn;
    GotOut(cfg.enc, part);
    var e := PutLine(cfg, rotated, event, f).0.disk;
    assert e == Append(rotated.disk, part);
    forall k | 1 <= k <= cfg.keep
      ensures UpOne(e, k, st.disk)
    {
      assert UpOne(rotated.disk, k, st.disk);
    }
    forall k | k > cfg.keep
      ensures Untouched(e, k, st.disk)
    {
      assert Untouched(rotated.disk, k, st.disk);
    }
  }

  lemma FullIsDue(cfg: Config, st: State, event: Event)
    requires SizeRight(cfg, st) && st.disk.handle.Some? && !Roomy(cfg, Here(cfg, st), |cfg.enc(event)| + 1)
    ensures RotationDue(cfg, st, |LineOf(cfg.enc, event, st.torn)|)
  {
    assert |LineOf(cfg.enc, event, false)| == |cfg.enc(event)| + 1;
  }

  lemma RotatedWrite(cfg: Config, st: State, kind: Kind, f: Fault)
    requires ValidConfig(cfg) && f.serialized
    requires RotationDue(cfg, st, |LineOf(cfg.enc, NextEvent(st, kind, f), st.torn)|)
    ensures var (rotated, ok) := Rotate(cfg, st, f);
      WriteEvent(cfg, st, kind, f) == if ok then PutLine(cfg, rotated, NextEvent(st, kind, f), f) else (rotated, Err(RotationFailed))
  {
  }

  lemma RotationLogsNothing(cfg: Config, st: State, f: Fault)
    requires cfg.keep >= 1
    ensures Rotate(cfg, st, f).0.log == st.log
  {
  }

  lemma FullEvent(cfg: Config, st: State, kind: Kind, f: Fault)
    requires ValidConfig(cfg) && cfg.hasFile && f.serialized && NoTear(f) && SizeRight(cfg, st) && st.disk.handle.Some?
    requires !Roomy(cfg, Here(cfg, st), |cfg.enc(NextEvent(st, kind, f))| + 1)
    ensures var (after, result) := WriteEvent(cfg, st, kind, f);
      if RotationSucceeds(cfg, f) then MovedUp(cfg, st.disk, after.disk, cfg.enc(NextEvent(st, kind, f)) + [NL])
      else result == Err(RotationFailed) && after.log == st.log
  {
    var event := NextEvent(st, kind, f);
    FullIsDue(cfg, st, event);
    RotatedWrite(cfg, st, kind, f);
    RotateOkIff(cfg, st, f);
    RotationLogsNothing(cfg, st, f);
    if RotationSucceeds(cfg, f) {
      WriteAfterRotation(cfg, st, event, f);
    }
  }

  /**
   * And as long as no write and no sync has failed, a line that would carry a
   * file with anything in it past the limit is preceded by a rotation: if that
   * succeeds every file moves up one slot and the line is alone in the live
   * one, and if it does not the line is not written at all.
   */
  lemma FullMeansRotation(cfg: Config, found: map<nat, Bytes>, calls: seq<Call>, kind: Kind, f: Fault)
    requires OpensFile(cfg, found) && NoneTears(calls) && f.serialized && NoTear(f)
    requires Run(cfg, Opened(cfg, found), calls).disk.handle.Some?
    requires var st := Run(cfg, Opened(cfg, found), calls); !Roomy(cfg, Here(cfg, st), |cfg.enc(NextEvent(st, kind, f))| + 1)
    ensures var st := Run(cfg, Opened(cfg, found), calls);
      var (after, result) := WriteEvent(cfg, st, kind, f);
      if RotationSucceeds(cfg, f) then MovedUp(cfg, st.disk, after.disk, cfg.enc(NextEvent(st, kind, f)) + [NL])
      else result == Err(RotationFailed) && after.log == st.log
  {
    SizeIsTheFiles(cfg, found, calls);
    FullEvent(cfg, Run(cfg, Opened(cfg, found), calls), kind, f);
  }
}
