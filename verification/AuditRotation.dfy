/** What rotation does to the files, and how large they get. */
module AuditRotation {
  import opened Prelude
  import opened AuditModel
  import opened AuditLines
  import opened AuditRuns

  // ----- a rotation that succeeds -----

  /** Slot `k` holds in `e` what the slot below it held in `d`, if anything. */
  ghost predicate UpOne(e: Disk, k: nat, d: Disk) {
    k >= 1 && (k in e.slots <==> k - 1 in d.slots) && (k in e.slots ==> e.slots[k] == d.slots[k - 1])
  }

  ghost predicate Untouched(e: Disk, k: nat, d: Disk) {
    (k in e.slots <==> k in d.slots) && (k in e.slots ==> e.slots[k] == d.slots[k])
  }

  lemma {:induction false} ShiftMoves(d: Disk, n: nat, f: Fault)
    requires n >= 1 && n !in d.slots && Shift(d, n, f).ok
    ensures var e := Shift(d, n, f).disk;
      && 1 !in e.slots
      && (forall k :: 2 <= k <= n ==> UpOne(e, k, d))
      && (forall k :: k == 0 || k > n ==> Untouched(e, k, d))
    decreases n
  {
    if n > 1 {
      var c := Move(d, n - 1, n);
      ShiftMoves(c, n - 1, f);
      var e := Shift(c, n - 1, f).disk;
      forall k | 2 <= k <= n
        ensures UpOne(e, k, d)
      {
        if k < n {
          assert UpOne(e, k, c) && Untouched(c, k - 1, d);
        } else {
          assert Untouched(e, k, c) && UpOne(c, k, d);
        }
      }
      forall k | k == 0 || k > n
        ensures Untouched(e, k, d)
      {
        assert Untouched(e, k, c) && Untouched(c, k, d);
      }
    }
  }

  /**
   * A rotation that succeeds moves every kept file up one slot, opens an empty
   * live file, and loses the last slot's file and nothing else.
   */
  lemma RotationShiftsByOne(cfg: Config, st: State, f: Fault)
    requires cfg.keep >= 1 && Rotate(cfg, st, f).1
    ensures var e := Rotate(cfg, st, f).0.disk;
      && e.handle == Some(0) && 0 in e.slots && e.slots[0] == []
      && (forall k :: 1 <= k <= cfg.keep ==> UpOne(e, k, st.disk))
      && (forall k :: k > cfg.keep ==> Untouched(e, k, st.disk))
  {
    var d := Remove(st.disk, cfg.keep);
    ShiftMoves(d, cfg.keep, f);
    var c, e := Shift(d, cfg.keep, f).disk, Rotate(cfg, st, f).0.disk;
    forall k | 1 <= k <= cfg.keep
      ensures UpOne(e, k, st.disk)
    {
      if k == 1 {
        assert Untouched(c, 0, d);
      } else {
        assert UpOne(c, k, d) && Untouched(e, k, c);
      }
    }
    forall k | k > cfg.keep
      ensures Untouched(e, k, st.disk)
    {
      assert Untouched(c, k, d) && Untouched(e, k, c);
    }
  }

  // ----- how large a file gets -----

  /** Every file of `e` is one of `d`. */
  ghost predicate Within(e: Disk, d: Disk) {
    forall n :: n in e.slots ==> exists m :: m in d.slots && d.slots[m] == e.slots[n]
  }

  lemma WithinTrans(c: Disk, e: Disk, d: Disk)
    requires Within(c, e) && Within(e, d)
    ensures Within(c, d)
  {
    forall n | n in c.slots
      ensures exists m :: m in d.slots && d.slots[m] == c.slots[n]
    {
      var k :| k in e.slots && e.slots[k] == c.slots[n];
    }
  }

  lemma MoveWithin(d: Disk, from: nat, to: nat)
    requires to !in d.slots
    ensures Within(Move(d, from, to), d)
  {
    var e := Move(d, from, to);
    forall n | n in e.slots
      ensures exists m :: m in d.slots && d.slots[m] == e.slots[n]
    {
      var m := if n == to then from else n;
      assert m in d.slots && d.slots[m] == e.slots[n];
    }
  }

  lemma {:induction false} ShiftWithin(d: Disk, n: nat, f: Fault)
    requires n >= 1 && n !in d.slots
    ensures Within(Shift(d, n, f).disk, d)
    decreases n
  {
    if n > 1 && f.renamed(n) {
      MoveWithin(d, n - 1, n);
      ShiftWithin(Move(d, n - 1, n), n - 1, f);
      WithinTrans(Shift(d, n, f).disk, Move(d, n - 1, n), d);
    }
  }

  lemma ShiftAllWithin(cfg: Config, d: Disk, f: Fault)
    requires cfg.keep >= 1
    ensures Within(ShiftAll(cfg, d, f).disk, d)
  {
    var e := Remove(d, cfg.keep);
    assert Within(d, d) && Within(e, d);
    if f.removed {
      ShiftWithin(e, cfg.keep, f);
      var s := Shift(e, cfg.keep, f);
      WithinTrans(s.disk, e, d);
      if s.ok && f.renamed(1) {
        MoveWithin(s.disk, 0, 1);
        WithinTrans(Move(s.disk, 0, 1), s.disk, d);
      }
    }
  }

  /** One record and its newline. */
  ghost predicate OneRecord(enc: Encoder, b: Bytes) {
    exists e :: b == enc(e) + [NL]
  }

  /** A file no larger than the limit, unless a single record is. */
  ghost predicate WithinLimit(cfg: Config, b: Bytes) {
    |b| <= cfg.maxBytes || OneRecord(cfg.enc, b)
  }

  /** Nothing torn, the size counted right, and every file within the limit. */
  ghost predicate Sized(cfg: Config, st: State) {
    && Good(cfg, st) && !st.torn
    && (st.disk.handle.Some? ==> st.size == |Content(cfg.enc, OpenParts(st.disk))|)
    && forall n :: n in st.disk.slots ==> WithinLimit(cfg, Content(cfg.enc, st.disk.slots[n]))
  }

  lemma RotateKeepsSize(cfg: Config, st: State, f: Fault)
    requires cfg.keep >= 1 && Sized(cfg, st)
    ensures Sized(cfg, Rotate(cfg, st, f).0)
  {
    RotateKeeps(cfg, st, f);
    ShiftAllWithin(cfg, st.disk, f);
    ShiftAllKeeps(cfg, st.disk, f);
  }

  /** No write fails, and no sync. */
  predicate NoTear(f: Fault) {
    f.written.None? && f.synced
  }

  /** A line written whole onto a file it fits, or onto an empty one. */
  lemma GrownFile(cfg: Config, parts: seq<Part>, event: Event, part: Part)
    requires part == Line(event, false, |LineOf(cfg.enc, event, false)|, true)
    requires Content(cfg.enc, parts) == [] || |Content(cfg.enc, parts)| + part.out <= cfg.maxBytes
    ensures |Content(cfg.enc, parts + [part])| == |Content(cfg.enc, parts)| + part.out
    ensures WithinLimit(cfg, Content(cfg.enc, parts + [part]))
  {
    var line, before := LineOf(cfg.enc, event, false), Content(cfg.enc, parts);
    AppendContent(cfg.enc, parts, part);
    assert BytesOf(cfg.enc, part) == line;
    if before == [] {
      assert before + line == cfg.enc(event) + [NL];
    }
  }

  /** Such a line on the open file, by whatever name. */
  lemma AppendKeepsLimit(cfg: Config, d: Disk, part: Part, event: Event, size: nat)
    requires part == Line(event, false, |LineOf(cfg.enc, event, false)|, true)
    requires Placed(d, cfg.keep) && (d.handle.Some? ==> size == |Content(cfg.enc, OpenParts(d))|)
    requires size == 0 || size + part.out <= cfg.maxBytes
    requires forall n :: n in d.slots ==> WithinLimit(cfg, Content(cfg.enc, d.slots[n]))
    ensures var e := Append(d, part);
      && (forall n :: n in e.slots ==> WithinLimit(cfg, Content(cfg.enc, e.slots[n])))
      && (e.handle.Some? ==> |Content(cfg.enc, OpenParts(e))| == size + part.out)
  {
    if d.handle.Some? {
      GrownFile(cfg, OpenParts(d), event, part);
    }
  }

  lemma PutLineKeepsSize(cfg: Config, st: State, event: Event, f: Fault)
    requires ValidConfig(cfg) && cfg.hasFile && cfg.maxBytes > 0 && Sized(cfg, st) && NoTear(f) && Fits(cfg, st, event)
    ensures Sized(cfg, PutLine(cfg, st, event, f).0)
  {
    PutLineKeeps(cfg, st, event, f);
    AppendKeepsLimit(cfg, st.disk, PartOf(cfg, st, event, f), event, st.size);
  }

  ghost function SizedFor(cfg: Config): State -> bool {
    (s: State) => Sized(cfg, s)
  }

  lemma SizedIsStable(cfg: Config)
    requires ValidConfig(cfg) && cfg.hasFile && cfg.maxBytes > 0
    ensures Stable(cfg, SizedFor(cfg), NoTear)
  {
    var inv := SizedFor(cfg);
    forall s, len, f | inv(s) && NoTear(f)
      ensures inv(MakeRoom(cfg, s, len, f).0)
    {
      if RotationDue(cfg, s, len) {
        RotateKeepsSize(cfg, s, f);
      }
    }
    forall s, event, f | inv(s) && NoTear(f) && Fits(cfg, s, event)
      ensures inv(PutLine(cfg, s, event, f).0)
    {
      PutLineKeepsSize(cfg, s, event, f);
    }
    forall s, dropped, reason, failing | inv(s)
      ensures inv(Counting(s, dropped, reason, failing))
    {
    }
  }

  /** A sink opened on files that keep to the limit. */
  ghost predicate OpenedWithinLimit(cfg: Config, found: map<nat, Bytes>) {
    OpensFile(cfg, found) && cfg.maxBytes > 0 && forall n :: n in found ==> WithinLimit(cfg, found[n])
  }

  lemma OpenedIsSized(cfg: Config, found: map<nat, Bytes>)
    requires OpenedWithinLimit(cfg, found)
    ensures Sized(cfg, Opened(cfg, found))
  {
    var st := Opened(cfg, found);
    OpenedIsGood(cfg, found);
    forall n | n in found
      ensures Content(cfg.enc, st.disk.slots[n]) == found[n]
    {
      OldAlone(cfg.enc, found[n]);
    }
  }

  /** Calls none of whose writes or syncs fail. */
  ghost predicate NoneTears(calls: seq<Call>) {
    forall i :: 0 <= i < |calls| ==> NoTear(calls[i].gap) && NoTear(calls[i].own)
  }

  /**
   * As long as no write and no sync fails, whatever becomes of the rotations:
   * the size counted is the open file's, and no file outgrows the limit but by
   * holding one record that does.
   */
  lemma FilesKeepToTheLimit(cfg: Config, found: map<nat, Bytes>, calls: seq<Call>)
    requires OpenedWithinLimit(cfg, found) && NoneTears(calls)
    ensures Sized(cfg, Run(cfg, Opened(cfg, found), calls))
  {
    var st, inv := Opened(cfg, found), SizedFor(cfg);
    OpenedIsSized(cfg, found);
    SizedIsStable(cfg);
    assert inv(st);
    RunStable(cfg, inv, NoTear, st, calls);
    assert inv(Run(cfg, st, calls));
  }
}
