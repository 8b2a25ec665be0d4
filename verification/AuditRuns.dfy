/** What the audit sink keeps over every run, whatever fails on the way. */
module AuditRuns {
  import opened Prelude
  import opened AuditModel
  import opened AuditLines

  // ----- the files -----

  /** The open file is the newest one that still has a name; once it has none, neither has any. */
  ghost predicate Placed(d: Disk, keep: nat) {
    match d.handle
    case Some(h) => h <= keep && h in d.slots && forall j :: 0 <= j < h ==> j !in d.slots
    case None => forall j :: 0 <= j <= keep ==> j !in d.slots
  }

  /** Every file keeps the repair rule, but for a first record put on a file found unfinished. */
  ghost predicate AllHealing(enc: Encoder, d: Disk) {
    forall n :: n in d.slots ==> Healing(enc, Settled(enc, d.slots[n]))
  }

  /** What the open file holds, as long as it has a name. */
  function OpenParts(d: Disk): seq<Part> {
    if d.handle.Some? && d.handle.value in d.slots then d.slots[d.handle.value] else []
  }

  /** The open file is the one it was, unless its last name is gone. */
  predicate SameOpen(d: Disk, e: Disk) {
    e.handle.None? || (d.handle.Some? && OpenParts(e) == OpenParts(d))
  }

  ghost predicate Suffix<T>(a: seq<T>, b: seq<T>) {
    |a| <= |b| && b[|b| - |a|..] == a
  }

  lemma {:induction false} FlatAgrees(d: Disk, e: Disk, n: nat)
    requires forall j :: 0 <= j <= n ==> (j in d.slots <==> j in e.slots) && (j in d.slots ==> d.slots[j] == e.slots[j])
    ensures Flat(d, n) == Flat(e, n)
  {
    if n > 0 {
      FlatAgrees(d, e, n - 1);
    }
  }

  lemma {:induction false} FlatOfNothing(d: Disk, n: nat)
    requires forall j :: 0 <= j <= n ==> j !in d.slots
    ensures Flat(d, n) == []
  {
    if n > 0 {
      FlatOfNothing(d, n - 1);
    }
  }

  /** A file moved up one empty slot keeps its place in the order. */
  lemma {:induction false} FlatMoved(d: Disk, to: nat, n: nat)
    requires 1 <= to <= n && to !in d.slots
    ensures Flat(Move(d, to - 1, to), n) == Flat(d, n)
  {
    var e := Move(d, to - 1, to);
    if n > to {
      FlatMoved(d, to, n - 1);
    } else if to - 1 in d.slots {
      if to >= 2 {
        FlatAgrees(d, e, to - 2);
        var below := Flat(d, to - 2);
        assert Flat(e, to - 1) == [] + below == below;
        assert Flat(d, to) == [] + (d.slots[to - 1] + below) == d.slots[to - 1] + below;
      } else {
        assert Flat(e, 0) == [] && Flat(d, 0) == d.slots[0] + [];
      }
    }
  }

  lemma MovePlaces(d: Disk, to: nat, keep: nat)
    requires 1 <= to <= keep && to !in d.slots && Placed(d, keep)
    ensures var e := Move(d, to - 1, to); Placed(e, keep) && SameOpen(d, e) && to - 1 !in e.slots
  {
  }

  lemma MoveHeals(enc: Encoder, d: Disk, to: nat)
    requires 1 <= to && to !in d.slots && AllHealing(enc, d)
    ensures AllHealing(enc, Move(d, to - 1, to))
  {
    var e := Move(d, to - 1, to);
    forall n | n in e.slots
      ensures Healing(enc, Settled(enc, e.slots[n]))
    {
      assert e.slots[n] == d.slots[if n == to then to - 1 else n];
    }
  }

  lemma MoveKeeps(enc: Encoder, d: Disk, to: nat, keep: nat)
    requires 1 <= to <= keep && to !in d.slots && Placed(d, keep) && AllHealing(enc, d)
    ensures var e := Move(d, to - 1, to);
      && Placed(e, keep) && AllHealing(enc, e) && to - 1 !in e.slots
      && Flat(e, keep) == Flat(d, keep) && SameOpen(d, e)
  {
    FlatMoved(d, to, keep);
    MovePlaces(d, to, keep);
    MoveHeals(enc, d, to);
  }

  /** Without its oldest file, what is left is a suffix. */
  lemma FlatRemoved(d: Disk, keep: nat)
    ensures var e := Remove(d, keep); Suffix(Flat(e, keep), Flat(d, keep))
  {
    var e := Remove(d, keep);
    var oldest := if keep in d.slots then d.slots[keep] else [];
    var rest := if keep == 0 then [] else Flat(d, keep - 1);
    if keep > 0 {
      FlatAgrees(d, e, keep - 1);
    }
    assert Flat(e, keep) == [] + rest == rest;
    assert Flat(d, keep) == oldest + rest;
    assert (oldest + rest)[|oldest|..] == rest;
  }

  lemma RemoveKeeps(enc: Encoder, d: Disk, keep: nat)
    requires Placed(d, keep) && AllHealing(enc, d)
    ensures var e := Remove(d, keep);
      && Placed(e, keep) && AllHealing(enc, e) && keep !in e.slots
      && Suffix(Flat(e, keep), Flat(d, keep)) && SameOpen(d, e)
  {
    FlatRemoved(d, keep);
  }

  lemma {:induction false} ShiftKeeps(enc: Encoder, d: Disk, n: nat, f: Fault, keep: nat)
    requires 1 <= n <= keep && n !in d.slots && Placed(d, keep) && AllHealing(enc, d)
    ensures var e := Shift(d, n, f).disk;
      Placed(e, keep) && AllHealing(enc, e) && Flat(e, keep) == Flat(d, keep) && SameOpen(d, e)
    decreases n
  {
    if n > 1 && f.renamed(n) {
      MoveKeeps(enc, d, n, keep);
      ShiftKeeps(enc, Move(d, n - 1, n), n - 1, f, keep);
    }
  }

  /** However far the renames get, the files in order are a suffix of what they were, and the open one is the newest. */
  lemma ShiftAllKeeps(cfg: Config, d: Disk, f: Fault)
    requires cfg.keep >= 1 && Placed(d, cfg.keep) && AllHealing(cfg.enc, d)
    ensures var s := ShiftAll(cfg, d, f);
      && Placed(s.disk, cfg.keep) && AllHealing(cfg.enc, s.disk)
      && Suffix(Flat(s.disk, cfg.keep), Flat(d, cfg.keep))
      && SameOpen(d, s.disk)
      && (s.ok ==> 0 !in s.disk.slots)
  {
    if f.removed {
      var e := Remove(d, cfg.keep);
      RemoveKeeps(cfg.enc, d, cfg.keep);
      ShiftKeeps(cfg.enc, e, cfg.keep, f, cfg.keep);
      var s := Shift(e, cfg.keep, f);
      if s.ok && f.renamed(1) {
        MoveKeeps(cfg.enc, s.disk, 1, cfg.keep);
      }
    } else {
      assert Flat(d, cfg.keep)[0..] == Flat(d, cfg.keep);
    }
  }

  lemma {:induction false} FlatReopened(d: Disk, n: nat)
    requires 0 !in d.slots
    ensures Flat(Disk(d.slots[0 := []], Some(0)), n) == Flat(d, n)
  {
    if n > 0 {
      FlatReopened(d, n - 1);
    }
  }

  lemma {:induction false} FlatAppended(d: Disk, part: Part, n: nat)
    requires d.handle.Some? && d.handle.value <= n && Placed(d, n)
    ensures Flat(Append(d, part), n) == Flat(d, n) + [part]
    decreases n
  {
    var h, e := d.handle.value, Append(d, part);
    if n > h {
      FlatAppended(d, part, n - 1);
      ConcatAssoc(if n in d.slots then d.slots[n] else [], Flat(d, n - 1), [part]);
    } else if n > 0 {
      FlatOfNothing(d, n - 1);
      FlatOfNothing(e, n - 1);
    }
  }

  lemma SuffixNext<T>(a: seq<T>, b: seq<T>, x: T)
    requires Suffix(a, b)
    ensures Suffix(a + [x], b + [x])
  {
    var c := b + [x];
    assert c[|b| - |a|..] == b[|b| - |a|..] + [x];
  }

  lemma AppendKeeps(enc: Encoder, d: Disk, part: Part, keep: nat, log: seq<Part>)
    requires Placed(d, keep) && AllHealing(enc, d) && Suffix(Flat(d, keep), log)
    requires part.Line? && (!part.healed ==> Terminated(Content(enc, OpenParts(d))) || LoneOld(OpenParts(d)))
    ensures var e := Append(d, part);
      && Placed(e, keep) && AllHealing(enc, e) && Suffix(Flat(e, keep), log + [part])
      && (OpenParts(e) == OpenParts(d) + [part] || OpenParts(e) == [])
  {
    if d.handle.Some? {
      FlatAppended(d, part, keep);
      SettledHeals(enc, OpenParts(d), part);
      SuffixNext(Flat(d, keep), log, part);
    } else {
      FlatOfNothing(Append(d, part), keep);
    }
  }

  // ----- numbers -----

  /** Writes that succeeded, sync included. */
  function Written(parts: seq<Part>): nat {
    if parts == [] then 0
    else Written(parts[..|parts| - 1]) + if parts[|parts| - 1].Line? && parts[|parts| - 1].ok then 1 else 0
  }

  /** Every line carries the number after that of the writes that succeeded before it. */
  ghost predicate Numbered(parts: seq<Part>) {
    parts == [] ||
    (var init, last := parts[..|parts| - 1], parts[|parts| - 1];
     Numbered(init) && (last.Line? ==> last.event.number == Written(init) + 1))
  }

  ghost predicate AllFaithful(enc: Encoder, parts: seq<Part>) {
    forall i :: 0 <= i < |parts| ==> Faithful(enc, parts[i])
  }

  lemma NumberNext(parts: seq<Part>, part: Part)
    requires Numbered(parts) && (part.Line? ==> part.event.number == Written(parts) + 1)
    ensures Numbered(parts + [part])
    ensures Written(parts + [part]) == Written(parts) + if part.Line? && part.ok then 1 else 0
  {
    assert (parts + [part])[..|parts|] == parts;
  }

  // ----- the invariant -----

  ghost predicate GoodDisk(cfg: Config, d: Disk, log: seq<Part>) {
    Placed(d, cfg.keep) && AllHealing(cfg.enc, d) && Suffix(Flat(d, cfg.keep), log)
  }

  ghost predicate GoodLog(enc: Encoder, log: seq<Part>, number: nat) {
    Numbered(log) && number == Written(log) && AllFaithful(enc, log)
  }

  /** Unless the last write may have torn, the open file ends where a line does, or is as it was found. */
  ghost predicate Finished(enc: Encoder, d: Disk, torn: bool) {
    !torn ==> Terminated(Content(enc, OpenParts(d))) || LoneOld(OpenParts(d))
  }

  /** What holds of a sink with a file before and after every call. */
  ghost predicate Good(cfg: Config, st: State) {
    GoodDisk(cfg, st.disk, st.log) && Finished(cfg.enc, st.disk, st.torn) && GoodLog(cfg.enc, st.log, st.number)
  }

  lemma LogNext(enc: Encoder, log: seq<Part>, number: nat, part: Part)
    requires GoodLog(enc, log, number) && part.Line? && part.event.number == number + 1 && Faithful(enc, part)
    ensures GoodLog(enc, log + [part], if part.ok then number + 1 else number)
  {
    NumberNext(log, part);
  }

  lemma SuffixOfSuffix<T>(a: seq<T>, b: seq<T>, c: seq<T>)
    requires Suffix(a, b) && Suffix(b, c)
    ensures Suffix(a, c)
  {
    assert c[|c| - |a|..] == c[|c| - |b|..][|b| - |a|..];
  }

  /** A fresh live file, once the old one is out of the way. */
  lemma ReopenKeeps(cfg: Config, d: Disk, log: seq<Part>)
    requires GoodDisk(cfg, d, log) && 0 !in d.slots
    ensures var e := Disk(d.slots[0 := []], Some(0)); GoodDisk(cfg, e, log) && Finished(cfg.enc, e, false)
  {
    FlatReopened(d, cfg.keep);
  }

  lemma RotateKeeps(cfg: Config, st: State, f: Fault)
    requires cfg.keep >= 1 && Good(cfg, st)
    ensures Good(cfg, Rotate(cfg, st, f).0)
    ensures var after := Rotate(cfg, st, f).0; after.log == st.log && after.torn == st.torn && after.number == st.number
  {
    var s := ShiftAll(cfg, st.disk, f);
    ShiftAllKeeps(cfg, st.disk, f);
    SuffixOfSuffix(Flat(s.disk, cfg.keep), Flat(st.disk, cfg.keep), st.log);
    if s.ok {
      ReopenKeeps(cfg, s.disk, st.log);
    }
  }

  /** A whole line leaves the file finished. */
  lemma WholeLineFinishes(enc: Encoder, d: Disk, part: Part)
    requires part.Line? && part.out == |LineOf(enc, part.event, part.healed)|
    requires OpenParts(Append(d, part)) == OpenParts(d) + [part] || OpenParts(Append(d, part)) == []
    ensures Finished(enc, Append(d, part), false)
  {
    var line := LineOf(enc, part.event, part.healed);
    AppendContent(enc, OpenParts(d), part);
    assert BytesOf(enc, part) == line[..|line|] == line;
    assert line[|line| - 1] == NL;
  }

  /** The part one write adds. */
  function PartOf(cfg: Config, st: State, event: Event, f: Fault): Part {
    var len := |LineOf(cfg.enc, event, st.torn)|;
    if f.written.Some? then Line(event, st.torn, Min(f.written.value, len - 1), false)
    else Line(event, st.torn, len, !cfg.fsync || f.synced)
  }

  lemma WriteLineKeeps(cfg: Config, st: State, event: Event, f: Fault)
    requires Good(cfg, st) && event.number == st.number + 1
    ensures var w := WriteLine(cfg, st, event, f);
      Good(cfg, if w.1 then w.0.(torn := false, number := event.number) else w.0)
  {
    var part := PartOf(cfg, st, event, f);
    AppendKeeps(cfg.enc, st.disk, part, cfg.keep, st.log);
    LogNext(cfg.enc, st.log, st.number, part);
    if part.ok {
      WholeLineFinishes(cfg.enc, st.disk, part);
    }
  }

  lemma PutLineKeeps(cfg: Config, st: State, event: Event, f: Fault)
    requires cfg.hasFile && Good(cfg, st) && event.number == st.number + 1
    ensures Good(cfg, PutLine(cfg, st, event, f).0)
  {
    WriteLineKeeps(cfg, st, event, f);
  }

  lemma MakeRoomKeeps(cfg: Config, st: State, len: nat, f: Fault)
    requires ValidConfig(cfg) && Good(cfg, st)
    ensures Good(cfg, MakeRoom(cfg, st, len, f).0)
  {
    if RotationDue(cfg, st, len) {
      RotateKeeps(cfg, st, f);
    }
  }

  // ----- from steps to whole runs -----

  function Counting(st: State, dropped: nat, reason: GapReason, failing: bool): State {
    st.(dropped := dropped, reason := reason, failing := failing)
  }

  /** There is room for the next event's line, or no need for any. */
  predicate Fits(cfg: Config, st: State, event: Event) {
    event.number == st.number + 1 && !RotationDue(cfg, st, |LineOf(cfg.enc, event, st.torn)|)
  }

  /**
   * A property that, under the faults allowed, making room and putting a line
   * keep, and that counting losses does not touch.
   */
  ghost predicate Stable(cfg: Config, inv: State -> bool, allowed: Fault -> bool)
    requires ValidConfig(cfg)
  {
    && (forall s, len, f :: inv(s) && allowed(f) ==> inv(MakeRoom(cfg, s, len, f).0))
    && (forall s, event, f :: inv(s) && allowed(f) && Fits(cfg, s, event) ==> inv(PutLine(cfg, s, event, f).0))
    && (forall s, dropped, reason, failing :: inv(s) ==> inv(Counting(s, dropped, reason, failing)))
  }

  lemma MakeRoomFrame(cfg: Config, st: State, len: nat, f: Fault)
    requires ValidConfig(cfg)
    ensures var after := MakeRoom(cfg, st, len, f).0;
      after == st.(disk := after.disk, size := after.size)
    ensures var room := MakeRoom(cfg, st, len, f); room.1 ==> !RotationDue(cfg, room.0, len)
  {
  }

  /** An event is put on a line once there is room for it, or it fails having moved files at most. */
  lemma EventSteps(cfg: Config, st: State, kind: Kind, f: Fault) returns (room: State)
    requires ValidConfig(cfg)
    ensures room == st.(disk := room.disk, size := room.size)
    ensures var w := WriteEvent(cfg, st, kind, f);
      w == PutLine(cfg, room, Event(st.number + 1, f.stamp, kind), f) || (w.0 == room && w.1.Err?)
  {
    var event := Event(st.number + 1, f.stamp, kind);
    var len := |LineOf(cfg.enc, event, st.torn)|;
    MakeRoomFrame(cfg, st, len, f);
    room := if f.serialized then MakeRoom(cfg, st, len, f).0 else st;
  }

  lemma WriteEventStable(cfg: Config, inv: State -> bool, allowed: Fault -> bool, st: State, kind: Kind, f: Fault)
    requires ValidConfig(cfg) && Stable(cfg, inv, allowed) && inv(st) && allowed(f)
    ensures inv(WriteEvent(cfg, st, kind, f).0)
  {
    var event := Event(st.number + 1, f.stamp, kind);
    var len := |LineOf(cfg.enc, event, st.torn)|;
    MakeRoomFrame(cfg, st, len, f);
    assert inv(MakeRoom(cfg, st, len, f).0);
    if f.serialized && MakeRoom(cfg, st, len, f).1 {
      assert Fits(cfg, MakeRoom(cfg, st, len, f).0, event);
    }
  }

  lemma OwnWriteStable(cfg: Config, inv: State -> bool, allowed: Fault -> bool, st: State, call: Call, reported: nat)
    requires ValidConfig(cfg) && Stable(cfg, inv, allowed) && inv(st) && allowed(call.own)
    ensures inv(OwnWrite(cfg, st, call, reported).state)
  {
    WriteEventStable(cfg, inv, allowed, st, call.kind, call.own);
    var (after, result) := WriteEvent(cfg, st, call.kind, call.own);
    if result.Err? {
      assert Lost(after, result.error) == Counting(after, SatAdd(after.dropped, 1), ReasonOf(result.error), true);
    }
  }

  lemma RecordStable(cfg: Config, inv: State -> bool, allowed: Fault -> bool, st: State, call: Call)
    requires ValidConfig(cfg) && Stable(cfg, inv, allowed) && inv(st) && allowed(call.gap) && allowed(call.own)
    ensures inv(Record(cfg, st, call).state)
  {
    var ready := Absorb(cfg, st, call);
    assert ready == Counting(st, ready.dropped, ready.reason, ready.failing);
    if ready.dropped == 0 {
      OwnWriteStable(cfg, inv, allowed, ready, call, 0);
    } else {
      WriteEventStable(cfg, inv, allowed, ready, Gap(ready.dropped, ready.reason), call.gap);
      var (after, result) := WriteEvent(cfg, ready, Gap(ready.dropped, ready.reason), call.gap);
      if result.Err? {
        assert Lost(after, result.error) == Counting(after, SatAdd(after.dropped, 1), ReasonOf(result.error), true);
      } else {
        var cleared := after.(dropped := 0, failing := false);
        assert cleared == Counting(after, 0, after.reason, false);
        OwnWriteStable(cfg, inv, allowed, cleared, call, ready.dropped);
      }
    }
  }

  lemma {:induction false} RunStable(cfg: Config, inv: State -> bool, allowed: Fault -> bool, st: State, calls: seq<Call>)
    requires ValidConfig(cfg) && Stable(cfg, inv, allowed) && inv(st)
    requires forall i :: 0 <= i < |calls| ==> allowed(calls[i].gap) && allowed(calls[i].own)
    ensures inv(Run(cfg, st, calls))
  {
    if calls != [] {
      RunStable(cfg, inv, allowed, st, calls[..|calls| - 1]);
      RecordStable(cfg, inv, allowed, Run(cfg, st, calls[..|calls| - 1]), calls[|calls| - 1]);
    }
  }

  ghost function GoodFor(cfg: Config): State -> bool {
    (s: State) => Good(cfg, s)
  }

  predicate AnyFault(f: Fault) { true }

  lemma GoodIsStable(cfg: Config)
    requires ValidConfig(cfg) && cfg.hasFile
    ensures Stable(cfg, GoodFor(cfg), AnyFault)
  {
    var inv := GoodFor(cfg);
    forall s, len, f | inv(s)
      ensures inv(MakeRoom(cfg, s, len, f).0)
    {
      MakeRoomKeeps(cfg, s, len, f);
    }
    forall s, event, f | inv(s) && Fits(cfg, s, event)
      ensures inv(PutLine(cfg, s, event, f).0)
    {
      PutLineKeeps(cfg, s, event, f);
    }
    forall s, dropped, reason, failing | inv(s)
      ensures inv(Counting(s, dropped, reason, failing))
    {
    }
  }

  lemma RunKeeps(cfg: Config, st: State, calls: seq<Call>)
    requires ValidConfig(cfg) && cfg.hasFile && Good(cfg, st)
    ensures Good(cfg, Run(cfg, st, calls))
  {
    GoodIsStable(cfg);
    var inv := GoodFor(cfg);
    RunStable(cfg, inv, AnyFault, st, calls);
    assert inv(Run(cfg, st, calls));
  }

  /** A sink with a file, opened on whatever files are there. */
  ghost predicate OpensFile(cfg: Config, found: map<nat, Bytes>) {
    ValidConfig(cfg) && cfg.hasFile && 0 in found
  }

  ghost predicate AllOld(parts: seq<Part>) {
    forall i :: 0 <= i < |parts| ==> parts[i].Old?
  }

  lemma {:induction false} OldFlat(d: Disk, n: nat)
    requires forall j :: j in d.slots ==> AllOld(d.slots[j])
    ensures AllOld(Flat(d, n))
  {
    if n > 0 {
      OldFlat(d, n - 1);
    }
  }

  lemma {:induction false} OldIsNumbered(parts: seq<Part>)
    requires AllOld(parts)
    ensures Numbered(parts) && Written(parts) == 0
  {
    if parts != [] {
      OldIsNumbered(parts[..|parts| - 1]);
    }
  }

  lemma OpenedIsGood(cfg: Config, found: map<nat, Bytes>)
    requires OpensFile(cfg, found)
    ensures Good(cfg, Opened(cfg, found))
  {
    var st := Opened(cfg, found);
    OldFlat(st.disk, cfg.keep);
    OldIsNumbered(st.log);
    assert OpenParts(st.disk) == [Old(found[0])];
    forall n | n in st.disk.slots
      ensures Healing(cfg.enc, Settled(cfg.enc, st.disk.slots[n]))
    {
      OldAlone(cfg.enc, found[n]);
    }
    assert st.log[0..] == st.log;
  }
}
