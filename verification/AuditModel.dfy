/**
 * The audit sink as a function of its inputs: crates/bugwarden/src/audit.rs,
 * `record`, `write_event`, `rotate`, `absorb_export_losses`. Every step that can
 * fail takes its outcome from a fault record.
 */
module AuditModel {
  import opened Prelude

  type Byte = b: int | 0 <= b < 256
  type Bytes = seq<Byte>

  const NL: Byte := 10

  // ----- records -----

  datatype GapReason = WriteError | RotationError

  datatype Kind = Gap(dropped: nat, reason: GapReason) | Entry(body: Bytes)

  datatype Event = Event(number: nat, stamp: int, kind: Kind)

  /** How an event is spelt on its line, newlines aside. */
  type Encoder = Event -> Bytes

  /** A line-safe spelling: no newline inside, and no spelling the beginning of another. */
  ghost predicate LineSafe(enc: Encoder) {
    && (forall e :: NL !in enc(e))
    && (forall e, f :: enc(e) <= enc(f) ==> e == f)
  }

  datatype AuditError = SerializeError | RotationFailed | WriteFailed | ExportRefused

  function ReasonOf(e: AuditError): GapReason {
    if e.RotationFailed? then RotationError else WriteError
  }

  datatype Config = Config(
    keep: nat,
    maxBytes: nat,
    fsync: bool,
    hasFile: bool,
    hasExport: bool,
    enc: Encoder)

  /** What loading a configuration enforces: rotation keeps at least one file. */
  predicate ValidConfig(cfg: Config) {
    cfg.maxBytes > 0 ==> cfg.keep >= 1
  }

  // ----- files -----

  /**
   * What one write left behind: bytes that were there before this sink, or as
   * much of an event's line as got out; `ok` when the write and its sync both
   * succeeded.
   */
  datatype Part = Old(bytes: Bytes) | Line(event: Event, healed: bool, out: nat, ok: bool)

  /** A line: the repair newline when the last write may have torn, the record, its newline. */
  function LineOf(enc: Encoder, event: Event, healed: bool): Bytes {
    (if healed then [NL] else []) + enc(event) + [NL]
  }

  function BytesOf(enc: Encoder, part: Part): Bytes {
    match part
    case Old(bytes) => bytes
    case Line(event, healed, out, _) => LineOf(enc, event, healed)[..Min(out, |LineOf(enc, event, healed)|)]
  }

  /** The bytes of a file. */
  function Content(enc: Encoder, parts: seq<Part>): Bytes {
    if parts == [] then [] else Content(enc, parts[..|parts| - 1]) + BytesOf(enc, parts[|parts| - 1])
  }

  /**
   * The files by slot, the live one being 0 and `<path>.n` being `n`, and the
   * name the open file goes by: none for a file that has been deleted, and not
   * 0 when the live file was renamed and could not be reopened.
   */
  datatype Disk = Disk(slots: map<nat, seq<Part>>, handle: Option<nat>)

  function Remove(d: Disk, n: nat): Disk {
    Disk(d.slots - {n}, if d.handle == Some(n) then None else d.handle)
  }

  /** A rename, which here never lands on a file: every caller proves its target empty. */
  function Move(d: Disk, from: nat, to: nat): Disk
    requires to !in d.slots
  {
    if from !in d.slots then d
    else Disk((d.slots - {from})[to := d.slots[from]], if d.handle == Some(from) then Some(to) else d.handle)
  }

  function Append(d: Disk, part: Part): Disk {
    if d.handle.Some? && d.handle.value in d.slots
    then d.(slots := d.slots[d.handle.value := d.slots[d.handle.value] + [part]])
    else d
  }

  // ----- faults -----

  /**
   * How the steps of one write turn out. `renamed(n)` is the rename into slot
   * `n`; `written` is `Some(k)` when the write fails after `k` bytes.
   */
  datatype Fault = Fault(
    stamp: int,
    serialized: bool,
    removed: bool,
    renamed: nat -> bool,
    reopened: bool,
    dirSynced: bool,
    written: Option<nat>,
    synced: bool,
    accepted: bool)

  // ----- the sink's state -----

  datatype State = State(
    disk: Disk,
    size: nat,
    number: nat,
    dropped: nat,
    reason: GapReason,
    torn: bool,
    failing: bool,
    exported: seq<Event>,
    log: seq<Part>)

  // ----- rotation -----

  datatype Step = Step(disk: Disk, ok: bool)

  /** The renames from slot `n` down to slot 2, slot `n` being free. */
  function Shift(d: Disk, n: nat, f: Fault): (s: Step)
    requires n >= 1 && n !in d.slots
    ensures s.ok ==> 1 !in s.disk.slots
    decreases n
  {
    if n <= 1 then Step(d, true)
    else if !f.renamed(n) then Step(d, false)
    else Shift(Move(d, n - 1, n), n - 1, f)
  }

  /** The steps of a rotation that touch file names; slot 1 ends up holding what was live. */
  function ShiftAll(cfg: Config, d: Disk, f: Fault): Step
    requires cfg.keep >= 1
  {
    if !f.removed then Step(d, false)
    else
      var s := Shift(Remove(d, cfg.keep), cfg.keep, f);
      if !s.ok then s
      else if !f.renamed(1) then Step(s.disk, false)
      else Step(Move(s.disk, 0, 1), true)
  }

  /** `rotate`: shift, reopen the live file, sync the directory. */
  function Rotate(cfg: Config, st: State, f: Fault): (State, bool)
    requires cfg.keep >= 1
  {
    var s := ShiftAll(cfg, st.disk, f);
    if !s.ok || !f.reopened then (st.(disk := s.disk), false)
    else (st.(disk := Disk(s.disk.slots[0 := []], Some(0)), size := 0), f.dirSynced)
  }

  // ----- writing one event -----

  predicate RotationDue(cfg: Config, st: State, len: nat) {
    cfg.maxBytes > 0 && st.size > 0 && st.size + len > cfg.maxBytes
  }

  /** The write and the sync of one line to the open file. */
  function WriteLine(cfg: Config, st: State, event: Event, f: Fault): (State, bool) {
    var len := |LineOf(cfg.enc, event, st.torn)|;
    if f.written.Some? then
      var part := Line(event, st.torn, Min(f.written.value, len - 1), false);
      (st.(disk := Append(st.disk, part), log := st.log + [part], torn := true), false)
    else
      var ok := !cfg.fsync || f.synced;
      var part := Line(event, st.torn, len, ok);
      var after := st.(disk := Append(st.disk, part), log := st.log + [part]);
      if ok then (after.(size := st.size + len), true) else (after.(torn := true), false)
  }

  /** `export_record_bytes`: the line without its repair newline and its terminator. */
  function ExportRecordBytes(line: Bytes, healed: bool): Option<Bytes> {
    var start, end := if healed then 1 else 0, if |line| == 0 then 0 else |line| - 1;
    if start <= end then Some(line[start..end]) else None
  }

  /** Write the line, account for it, hand it to the exporter. */
  function PutLine(cfg: Config, st: State, event: Event, f: Fault): (State, Result<nat, AuditError>) {
    var wrote := if cfg.hasFile then WriteLine(cfg, st, event, f) else (st, true);
    if !wrote.1 then (wrote.0, Err(WriteFailed))
    else
      var kept := wrote.0.(torn := false, number := event.number);
      if !cfg.hasExport then (kept, Ok(event.number))
      else if !f.accepted then (kept, Err(ExportRefused))
      else (kept.(exported := kept.exported + [event]), Ok(event.number))
  }

  /** Rotation before a write, when one is due. */
  function MakeRoom(cfg: Config, st: State, len: nat, f: Fault): (State, bool)
    requires ValidConfig(cfg)
  {
    if RotationDue(cfg, st, len) then Rotate(cfg, st, f) else (st, true)
  }

  /** `write_event`: stamp, spell, rotate if due, write, sync, account. */
  function WriteEvent(cfg: Config, st: State, kind: Kind, f: Fault): (State, Result<nat, AuditError>)
    requires ValidConfig(cfg)
  {
    var event := Event(st.number + 1, f.stamp, kind);
    if !f.serialized then (st, Err(SerializeError))
    else
      var room := MakeRoom(cfg, st, |LineOf(cfg.enc, event, st.torn)|, f);
      if !room.1 then (room.0, Err(RotationFailed)) else PutLine(cfg, room.0, event, f)
  }

  // ----- one call -----

  /** One `record`: what is recorded, what the exporter reports lost, and how the two writes turn out. */
  datatype Call = Call(kind: Kind, peeked: nat, taken: nat, gap: Fault, own: Fault)

  /** The exporter's count only grows between being looked at and being taken. */
  predicate Consistent(call: Call) {
    call.peeked <= call.taken
  }

  /** What a call did: the state it left, its result, the losses a gap of it reported, the losses it took over. */
  datatype Outcome = Outcome(state: State, result: Result<nat, AuditError>, reported: nat, taken: nat)

  /** `absorb_export_losses`. */
  function Absorb(cfg: Config, st: State, call: Call): State {
    if !cfg.hasExport then st
    else
      var mirrored := st.(failing := st.failing || call.peeked > 0);
      if call.taken == 0 then mirrored
      else mirrored.(dropped := SatAdd(st.dropped, call.taken), reason := WriteError, failing := true)
  }

  /** The accounting of a failed write. */
  function Lost(st: State, e: AuditError): State {
    st.(failing := true, dropped := SatAdd(st.dropped, 1), reason := ReasonOf(e))
  }

  function TakenBy(cfg: Config, call: Call): nat {
    if cfg.hasExport then call.taken else 0
  }

  /** The event's own write, once no losses are pending. */
  function OwnWrite(cfg: Config, st: State, call: Call, reported: nat): Outcome
    requires ValidConfig(cfg)
  {
    var (after, result) := WriteEvent(cfg, st, call.kind, call.own);
    Outcome(if result.Ok? then after else Lost(after, result.error), result, reported, TakenBy(cfg, call))
  }

  /** `record`. */
  function Record(cfg: Config, st: State, call: Call): Outcome
    requires ValidConfig(cfg)
  {
    var ready := Absorb(cfg, st, call);
    if ready.dropped == 0 then OwnWrite(cfg, ready, call, 0)
    else
      var (after, result) := WriteEvent(cfg, ready, Gap(ready.dropped, ready.reason), call.gap);
      if result.Err? then Outcome(Lost(after, result.error), result, 0, TakenBy(cfg, call))
      else OwnWrite(cfg, after.(dropped := 0, failing := false), call, ready.dropped)
  }

  /** The state after a sequence of calls. */
  function Run(cfg: Config, st: State, calls: seq<Call>): State
    requires ValidConfig(cfg)
  {
    if calls == [] then st else Record(cfg, Run(cfg, st, calls[..|calls| - 1]), calls[|calls| - 1]).state
  }

  // ----- a sink just opened -----

  /** The files found on opening: what each holds was written before. */
  function FoundFiles(found: map<nat, Bytes>): map<nat, seq<Part>> {
    map n | n in found :: [Old(found[n])]
  }

  /** Everything in the kept files, oldest first. */
  function Flat(d: Disk, n: nat): seq<Part> {
    (if n in d.slots then d.slots[n] else []) + (if n == 0 then [] else Flat(d, n - 1))
  }

  /** `open`: the live file is there, created if need be; nothing is known to be torn. */
  function Opened(cfg: Config, found: map<nat, Bytes>): State
    requires cfg.hasFile ==> 0 in found
  {
    var disk := if cfg.hasFile then Disk(FoundFiles(found), Some(0)) else Disk(map[], None);
    State(disk, if cfg.hasFile then |found[0]| else 0, 0, 0, WriteError, false, false, [], Flat(disk, cfg.keep))
  }
}
