/**
 * The search window: crates/bugwarden-core/src/guard.rs, `quicksearch_window`
 * and `filter_bug_list`.
 */
module Search {
  import opened Prelude
  import opened Json

  const MAX_SEARCH_WINDOW: nat := 1000
  const SEARCH_SCAN_CHUNK: nat := 200
  const SEARCH_SCAN_MAX: nat := 2000
  const SEARCH_SCAN_REQUESTS: nat := 10

  /** What the policy lets a client see of one bug: an object (whole or summarised), or nothing. */
  datatype View = Shown(bug: Value) | Hidden

  /** A row, and the number of the request that brought it, by which the judge's clock is read. */
  datatype Row = Row(bug: Value, at: nat)

  type Judge = Row -> View

  /** One upstream request: how many rows, from which row on. */
  type Upstream = (nat, nat) -> Result<seq<Value>, string>

  function IdOf(bug: Value): Option<nat> {
    GetU64(bug, "id")
  }

  function RowId(row: Row): Option<nat> {
    IdOf(row.bug)
  }

  /** A judge that shows bugs under the id the server gave them. */
  ghost predicate KeepsIds(judge: Judge) {
    forall row {:trigger judge(row)} :: judge(row).Shown? ==> IdOf(judge(row).bug) == RowId(row)
  }

  // ----- one chunk -----

  /** The rows with a readable id not met before, first occurrences only. */
  function Fresh(rows: seq<Row>, seen: set<nat>): seq<Row> {
    if rows == [] then []
    else match RowId(rows[0])
      case Some(id) =>
        if id in seen then Fresh(rows[1..], seen) else [rows[0]] + Fresh(rows[1..], seen + {id})
      case None => Fresh(rows[1..], seen)
  }

  function ReadableIds(rows: seq<Row>): set<nat> {
    set row | row in rows && RowId(row).Some? :: RowId(row).value
  }

  function ShownOf(judge: Judge, rows: seq<Row>): seq<Value> {
    if rows == [] then []
    else (if judge(rows[0]).Shown? then [judge(rows[0]).bug] else []) + ShownOf(judge, rows[1..])
  }

  function HiddenIds(judge: Judge, rows: seq<Row>): seq<nat> {
    if rows == [] then []
    else (if judge(rows[0]).Hidden? && RowId(rows[0]).Some? then [RowId(rows[0]).value] else []) + HiddenIds(judge, rows[1..])
  }

  lemma {:induction false} ShownAppend(judge: Judge, a: seq<Row>, b: seq<Row>)
    ensures ShownOf(judge, a + b) == ShownOf(judge, a) + ShownOf(judge, b)
  {
    if a == [] {
      assert a + b == b;
    } else {
      ShownAppend(judge, a[1..], b);
      assert (a + b)[1..] == a[1..] + b && (a + b)[0] == a[0];
      var first := if judge(a[0]).Shown? then [judge(a[0]).bug] else [];
      assert first + (ShownOf(judge, a[1..]) + ShownOf(judge, b)) == (first + ShownOf(judge, a[1..])) + ShownOf(judge, b);
    }
  }

  lemma {:induction false} HiddenAppend(judge: Judge, a: seq<Row>, b: seq<Row>)
    ensures HiddenIds(judge, a + b) == HiddenIds(judge, a) + HiddenIds(judge, b)
  {
    if a == [] {
      assert a + b == b;
    } else {
      HiddenAppend(judge, a[1..], b);
      assert (a + b)[1..] == a[1..] + b && (a + b)[0] == a[0];
      var first := if judge(a[0]).Hidden? && RowId(a[0]).Some? then [RowId(a[0]).value] else [];
      assert first + (HiddenIds(judge, a[1..]) + HiddenIds(judge, b)) == (first + HiddenIds(judge, a[1..])) + HiddenIds(judge, b);
    }
  }

  lemma {:induction false} FreshAppend(a: seq<Row>, b: seq<Row>, seen: set<nat>)
    ensures Fresh(a + b, seen) == Fresh(a, seen) + Fresh(b, seen + ReadableIds(a))
  {
    if a == [] {
      assert a + b == b && seen + ReadableIds(a) == seen;
    } else {
      var id := RowId(a[0]);
      assert (a + b)[1..] == a[1..] + b;
      var seen1 := if id.Some? then seen + {id.value} else seen;
      FreshAppend(a[1..], b, seen1);
      assert a == [a[0]] + a[1..];
      assert seen + ReadableIds(a) == seen1 + ReadableIds(a[1..]);
      assert id.Some? && id.value in seen ==> seen1 == seen;
    }
  }

  /** `filter_bug_list`: whole, summarised or dropped, in order. */
  method FilterBugList(judge: Judge, bugs: seq<Row>) returns (kept: seq<Value>, dropped: seq<nat>)
    ensures kept == ShownOf(judge, bugs) && dropped == HiddenIds(judge, bugs)
  {
    kept, dropped := [], [];
    for i := 0 to |bugs|
      invariant kept == ShownOf(judge, bugs[..i]) && dropped == HiddenIds(judge, bugs[..i])
    {
      assert bugs[..i + 1] == bugs[..i] + [bugs[i]];
      ShownAppend(judge, bugs[..i], [bugs[i]]);
      HiddenAppend(judge, bugs[..i], [bugs[i]]);
      match judge(bugs[i])
      case Shown(bug) => kept := kept + [bug];
      case Hidden =>
        if RowId(bugs[i]).Some? {
          dropped := dropped + [RowId(bugs[i]).value];
        }
    }
    assert bugs[..|bugs|] == bugs;
  }

  /** The dedupe filter with its side effect on `seen`. */
  method TakeFresh(rows: seq<Row>, seen0: set<nat>) returns (unseen: seq<Row>, seen: set<nat>)
    ensures unseen == Fresh(rows, seen0) && seen == seen0 + ReadableIds(rows)
  {
    unseen, seen := [], seen0;
    for i := 0 to |rows|
      invariant unseen == Fresh(rows[..i], seen0) && seen == seen0 + ReadableIds(rows[..i])
    {
      assert rows[..i + 1] == rows[..i] + [rows[i]];
      FreshAppend(rows[..i], [rows[i]], seen0);
      var id := RowId(rows[i]);
      if id.Some? && id.value !in seen {
        unseen := unseen + [rows[i]];
        seen := seen + {id.value};
      }
    }
    assert rows[..|rows|] == rows;
  }

  // ----- the scan -----

  /** One request: how many rows it asks for, and from where. */
  type Request = (nat, nat)

  /** Everything the scan has fetched, the rows in the order they came, and the requests that took. */
  datatype Scan = Scan(rows: seq<Row>, asked: seq<Request>)

  datatype Outcome = Done(scan: Scan) | Failed(scan: Scan, error: string)

  function Deduped(rows: seq<Row>): seq<Row> {
    Fresh(rows, {})
  }

  function Visible(judge: Judge, scan: Scan): seq<Value> {
    ShownOf(judge, Deduped(scan.rows))
  }

  /** The rows the next request asks for. */
  function NextChunk(scan: Scan): nat {
    if |scan.rows| <= SEARCH_SCAN_MAX then Min(SEARCH_SCAN_CHUNK, SEARCH_SCAN_MAX - |scan.rows|) else 0
  }

  function NextRequest(scan: Scan): Request {
    (NextChunk(scan), |scan.rows|)
  }

  /** The rows of one answer. */
  function Stamped(bugs: seq<Value>, at: nat): (rows: seq<Row>)
    ensures |rows| == |bugs|
  {
    seq(|bugs|, i requires 0 <= i < |bugs| => Row(bugs[i], at))
  }

  /** The rows the next request brings, if this is its answer. */
  function Brought(scan: Scan, bugs: seq<Value>): (rows: seq<Row>)
    ensures |rows| == |bugs|
  {
    Stamped(bugs, |scan.asked|)
  }

  /** The scan after one more request that was answered. */
  function Advanced(scan: Scan, bugs: seq<Value>): Scan {
    Scan(scan.rows + Brought(scan, bugs), scan.asked + [NextRequest(scan)])
  }

  predicate BoundsLeft(scan: Scan) {
    |scan.rows| < SEARCH_SCAN_MAX && |scan.asked| < SEARCH_SCAN_REQUESTS
  }

  /**
   * Scanning on from `scan` until `target` bugs are visible, the upstream runs
   * dry or fails, or a bound is met. With no target the scan runs to its bounds.
   */
  function ScanOn(up: Upstream, judge: Judge, target: Option<nat>, scan: Scan): Outcome
    decreases SEARCH_SCAN_REQUESTS - |scan.asked|
  {
    if !BoundsLeft(scan) || (target.Some? && |Visible(judge, scan)| >= target.value) then Done(scan)
    else match up(NextChunk(scan), |scan.rows|)
      case Err(e) => Failed(Scan(scan.rows, scan.asked + [NextRequest(scan)]), e)
      case Ok(rows) =>
        var next := Advanced(scan, rows);
        if rows == [] then Done(next) else ScanOn(up, judge, target, next)
  }

  const START := Scan([], [])

  /** The one list every page is cut from: what the scan run to its bounds makes visible. */
  function Canonical(up: Upstream, judge: Judge): seq<Value> {
    Visible(judge, ScanOn(up, judge, None, START).scan)
  }

  /** How far a request reaches into the visible bugs. */
  function Needed(offset: nat, limit: nat): nat {
    Min(offset + limit, MAX_SEARCH_WINDOW)
  }

  /** The scan target: a whole number of chunks. */
  function Target(needed: nat): nat {
    (needed + SEARCH_SCAN_CHUNK - 1) / SEARCH_SCAN_CHUNK * SEARCH_SCAN_CHUNK
  }

  datatype SearchWindow = SearchWindow(bugs: seq<Value>, scanned: nat, dropped: seq<nat>)

  function Slice(visible: seq<Value>, offset: nat, needed: nat): seq<Value> {
    var end := Min(needed, |visible|);
    visible[Min(offset, end)..end]
  }

  /** `quicksearch_window` as a function of its two inputs. */
  function Window(up: Upstream, judge: Judge, offset: nat, limit: nat): Result<SearchWindow, string> {
    var needed := Needed(offset, limit);
    if limit == 0 || needed == 0 then Ok(SearchWindow([], 0, []))
    else match ScanOn(up, judge, Some(Target(needed)), START)
      case Failed(_, e) => Err(e)
      case Done(scan) =>
        Ok(SearchWindow(Slice(Visible(judge, scan), offset, needed), |scan.rows|, HiddenIds(judge, Deduped(scan.rows))))
  }

  /** What one more chunk adds to the visible bugs and to the dropped ids. */
  lemma ScanStep(judge: Judge, scan: Scan, bugs: seq<Value>)
    ensures var rows, next := Brought(scan, bugs), Advanced(scan, bugs);
      var unseen := Fresh(rows, ReadableIds(scan.rows));
      && Visible(judge, next) == Visible(judge, scan) + ShownOf(judge, unseen)
      && HiddenIds(judge, Deduped(next.rows)) == HiddenIds(judge, Deduped(scan.rows)) + HiddenIds(judge, unseen)
      && ReadableIds(next.rows) == ReadableIds(scan.rows) + ReadableIds(rows)
  {
    var rows := Brought(scan, bugs);
    FreshAppend(scan.rows, rows, {});
    assert {} + ReadableIds(scan.rows) == ReadableIds(scan.rows);
    ShownAppend(judge, Deduped(scan.rows), Fresh(rows, ReadableIds(scan.rows)));
    HiddenAppend(judge, Deduped(scan.rows), Fresh(rows, ReadableIds(scan.rows)));
  }

  /** The requests made for a page. */
  function Work(up: Upstream, judge: Judge, offset: nat, limit: nat): seq<Request> {
    if limit == 0 then [] else ScanOn(up, judge, Some(Target(Needed(offset, limit))), START).scan.asked
  }

  /** The scan loop. `work` records the requests made, `failure` the one that was not answered. */
  method ScanTo(up: Upstream, judge: Judge, target: nat)
      returns (visible: seq<Value>, scanned: nat, dropped: seq<nat>, failure: Option<string>, work: seq<Request>)
    ensures var o := ScanOn(up, judge, Some(target), START);
      && work == o.scan.asked && failure == (if o.Failed? then Some(o.error) else None)
      && scanned == |o.scan.rows| && visible == Visible(judge, o.scan)
      && dropped == HiddenIds(judge, Deduped(o.scan.rows))
  {
    visible, scanned, dropped, failure, work := [], 0, [], None, [];
    var seen: set<nat> := {};
    ghost var scan := START;
    assert Fresh([], {}) == [];
    while |visible| < target && scanned < SEARCH_SCAN_MAX && |work| < SEARCH_SCAN_REQUESTS
      invariant scanned == |scan.rows| && work == scan.asked
      invariant seen == ReadableIds(scan.rows)
      invariant visible == Visible(judge, scan) && dropped == HiddenIds(judge, Deduped(scan.rows))
      invariant ScanOn(up, judge, Some(target), START) == ScanOn(up, judge, Some(target), scan)
      decreases SEARCH_SCAN_REQUESTS - |work|
    {
      var chunk := Min(SEARCH_SCAN_CHUNK, SEARCH_SCAN_MAX - scanned);
      var envelope := up(chunk, scanned);
      work := work + [(chunk, scanned)];
      if envelope.Err? {
        failure := Some(envelope.error);
        return;
      }
      var rows := envelope.value;
      visible, seen, dropped := JudgeChunk(judge, scan, rows, |work| - 1, visible, seen, dropped);
      scanned := scanned + |rows|;
      scan := Advanced(scan, rows);
      if rows == [] {
        break;
      }
    }
  }

  /**
   * `quicksearch_window`: offsets and limits are `u32`, and the sum saturates
   * before it is clamped.
   */
  method QuicksearchWindow(up: Upstream, judge: Judge, offset: nat, limit: nat)
      returns (result: Result<SearchWindow, string>, work: seq<Request>)
    ensures result == Window(up, judge, offset, limit)
    ensures work == Work(up, judge, offset, limit)
  {
    var needed := Min(offset + limit, MAX_SEARCH_WINDOW);
    if limit == 0 || needed == 0 {
      return Ok(SearchWindow([], 0, [])), [];
    }
    var target := (needed + SEARCH_SCAN_CHUNK - 1) / SEARCH_SCAN_CHUNK * SEARCH_SCAN_CHUNK;
    var visible, scanned, dropped, failure, asked := ScanTo(up, judge, target);
    if failure.Some? {
      return Err(failure.value), asked;
    }
    var end := Min(needed, |visible|);
    var start := Min(offset, end);
    return Ok(SearchWindow(visible[start..end], scanned, dropped)), asked;
  }

  /** One chunk: the rows not met before are judged, the shown and the dropped kept apart. */
  method JudgeChunk(judge: Judge, ghost scan: Scan, bugs: seq<Value>, at: nat, visible0: seq<Value>, seen0: set<nat>, dropped0: seq<nat>)
      returns (visible: seq<Value>, seen: set<nat>, dropped: seq<nat>)
    requires seen0 == ReadableIds(scan.rows) && at == |scan.asked|
    requires visible0 == Visible(judge, scan) && dropped0 == HiddenIds(judge, Deduped(scan.rows))
    ensures var next := Advanced(scan, bugs);
      seen == ReadableIds(next.rows) && visible == Visible(judge, next) && dropped == HiddenIds(judge, Deduped(next.rows))
  {
    var unseen, met := TakeFresh(Stamped(bugs, at), seen0);
    var kept, hidden := FilterBugList(judge, unseen);
    ScanStep(judge, scan, bugs);
    visible, seen, dropped := visible0 + kept, met, dropped0 + hidden;
  }

  // ----- every page is a slice of one list -----

  lemma ScanGrows(judge: Judge, rows: seq<Row>, more: seq<Row>)
    ensures ShownOf(judge, Deduped(rows)) <= ShownOf(judge, Deduped(rows + more))
  {
    FreshAppend(rows, more, {});
    ShownAppend(judge, Deduped(rows), Fresh(more, {} + ReadableIds(rows)));
  }

  /**
   * A targeted scan sees a prefix of what the unbounded scan sees; unless it
   * failed, what it lacks lies past the target.
   */
  lemma {:induction false} ScanIsPrefix(up: Upstream, judge: Judge, target: nat, scan: Scan)
    ensures var aimed, full := ScanOn(up, judge, Some(target), scan), ScanOn(up, judge, None, scan);
      && scan.rows <= aimed.scan.rows <= full.scan.rows
      && Visible(judge, aimed.scan) <= Visible(judge, full.scan)
      && (aimed.Done? ==> Visible(judge, aimed.scan) == Visible(judge, full.scan) || |Visible(judge, aimed.scan)| >= target)
      && (aimed.Failed? <==> full.Failed? && |Visible(judge, full.scan)| < target)
      && (aimed.Failed? ==> aimed == full)
    decreases SEARCH_SCAN_REQUESTS - |scan.asked|
  {
    var full := ScanOn(up, judge, None, scan);
    if BoundsLeft(scan) {
      var got := up(NextChunk(scan), |scan.rows|);
      if got.Ok? && got.value != [] {
        ScanIsPrefix(up, judge, target, Advanced(scan, got.value));
      }
      if |Visible(judge, scan)| >= target {
        assert scan.rows <= full.scan.rows by {
          if got.Ok? { assert scan.rows <= Advanced(scan, got.value).rows; }
        }
        assert full.scan.rows == scan.rows + full.scan.rows[|scan.rows|..];
        ScanGrows(judge, scan.rows, full.scan.rows[|scan.rows|..]);
      }
    }
  }

  lemma TargetCovers(needed: nat)
    ensures needed <= Target(needed) < needed + SEARCH_SCAN_CHUNK
  {
  }

  lemma PageIsCut(up: Upstream, judge: Judge, offset: nat, limit: nat)
    ensures var v, page := Canonical(up, judge), Window(up, judge, offset, limit);
      && (page.Ok? ==> page.value.bugs == Slice(v, offset, Needed(offset, limit)))
      && (page.Err? <==>
           limit > 0 && ScanOn(up, judge, None, START).Failed? && |v| < Target(Needed(offset, limit)))
  {
    var needed := Needed(offset, limit);
    TargetCovers(needed);
    ScanIsPrefix(up, judge, Target(needed), START);
  }

  /**
   * Page slicing: whatever the offset and limit, the page is the stretch of one
   * list `V`, which depends on neither, from `s = min(offset, e)` up to
   * `e = min(offset + limit, 1000, |V|)`. A page fails exactly when it asks for
   * anything and the upstream fails before `V` has as many bugs as the whole
   * number of chunks of 200 that covers it.
   */
  lemma PageIsSlice(up: Upstream, judge: Judge, offset: nat, limit: nat)
    ensures var v, page := Canonical(up, judge), Window(up, judge, offset, limit);
      var reach := if offset + limit < 1000 then offset + limit else 1000;
      var e := if reach < |v| then reach else |v|;
      var s := if offset < e then offset else e;
      && (page.Ok? ==> |page.value.bugs| == e - s && forall i :: 0 <= i < e - s ==> page.value.bugs[i] == v[s + i])
      && (page.Err? <==>
           limit > 0 && ScanOn(up, judge, None, START).Failed? && |v| < (reach + 199) / 200 * 200)
  {
    PageIsCut(up, judge, offset, limit);
  }

  lemma SlicesCompose(v: seq<Value>, offset: nat, limit: nat, more: nat)
    ensures Slice(v, offset, Needed(offset, limit)) + Slice(v, offset + limit, Needed(offset + limit, more))
         == Slice(v, offset, Needed(offset, limit + more))
  {
    var e, f := Min(Needed(offset, limit), |v|), Min(Needed(offset, limit + more), |v|);
    var s, t := Min(offset, e), Min(offset + limit, f);
    assert s == Min(offset, f) && t == e;
    assert v[s..e] + v[e..f] == v[s..f];
  }

  lemma PartsSucceed(up: Upstream, judge: Judge, offset: nat, limit: nat, more: nat)
    requires Window(up, judge, offset, limit + more).Ok?
    ensures Window(up, judge, offset, limit).Ok? && Window(up, judge, offset + limit, more).Ok?
  {
    PageIsCut(up, judge, offset, limit + more);
    TargetMonotone(Needed(offset, limit), Needed(offset, limit + more));
    PageIsCut(up, judge, offset, limit);
    PageIsCut(up, judge, offset + limit, more);
  }

  /** Adjacent pages are one page cut in two. */
  lemma PagesCompose(up: Upstream, judge: Judge, offset: nat, limit: nat, more: nat)
    requires Window(up, judge, offset, limit + more).Ok?
    ensures Window(up, judge, offset, limit).Ok? && Window(up, judge, offset + limit, more).Ok?
    ensures Window(up, judge, offset, limit).value.bugs + Window(up, judge, offset + limit, more).value.bugs
         == Window(up, judge, offset, limit + more).value.bugs
  {
    PartsSucceed(up, judge, offset, limit, more);
    PageIsCut(up, judge, offset, limit);
    PageIsCut(up, judge, offset + limit, more);
    PageIsCut(up, judge, offset, limit + more);
    SlicesCompose(Canonical(up, judge), offset, limit, more);
  }

  lemma TargetMonotone(a: nat, b: nat)
    requires a <= b
    ensures Target(a) <= Target(b)
  {
  }

  /** Pages reaching into the same block of 200 make the same requests, and scan and drop the same rows. */
  lemma SameBlockSameWork(up: Upstream, judge: Judge, offset: nat, limit: nat, offset': nat, limit': nat)
    requires limit > 0 && limit' > 0
    requires (Needed(offset, limit) - 1) / SEARCH_SCAN_CHUNK == (Needed(offset', limit') - 1) / SEARCH_SCAN_CHUNK
    ensures var a, b := Window(up, judge, offset, limit), Window(up, judge, offset', limit');
      && Work(up, judge, offset, limit) == Work(up, judge, offset', limit')
      && ScanOn(up, judge, Some(Target(Needed(offset, limit))), START)
           == ScanOn(up, judge, Some(Target(Needed(offset', limit'))), START)
      && a.Ok? == b.Ok?
      && (a.Ok? ==> a.value.scanned == b.value.scanned && a.value.dropped == b.value.dropped)
  {
    assert Target(Needed(offset, limit)) == Target(Needed(offset', limit'));
  }

  // ----- the accounting -----

  function IdsOf(bugs: seq<Value>): seq<nat> {
    if bugs == [] then [] else FirstId(bugs[0]) + IdsOf(bugs[1..])
  }

  function RowIds(rows: seq<Row>): seq<nat> {
    if rows == [] then [] else FirstId(rows[0].bug) + RowIds(rows[1..])
  }

  /** Each id of `ids` once, nothing else. */
  ghost predicate OnceEach(tally: multiset<nat>, ids: set<nat>) {
    forall id :: tally[id] == if id in ids then 1 else 0
  }

  lemma OnceMore(tally: seq<nat>, ids: set<nat>, id: nat)
    requires OnceEach(multiset(tally), ids) && id !in ids
    ensures OnceEach(multiset([id] + tally), {id} + ids)
  {
  }

  lemma ReadableNext(rows: seq<Row>)
    requires rows != []
    ensures var rest := ReadableIds(rows[1..]);
      ReadableIds(rows) == if RowId(rows[0]).Some? then {RowId(rows[0]).value} + rest else rest
  {
    assert rows == [rows[0]] + rows[1..];
  }

  lemma {:induction false} FreshIds(rows: seq<Row>, seen: set<nat>)
    ensures OnceEach(multiset(RowIds(Fresh(rows, seen))), ReadableIds(rows) - seen)
  {
    if rows != [] {
      var id, rest := RowId(rows[0]), rows[1..];
      ReadableNext(rows);
      var below := ReadableIds(rest);
      if id.Some? && id.value !in seen {
        var met := seen + {id.value};
        FreshIds(rest, met);
        var kept := Fresh(rest, met);
        assert ([rows[0]] + kept)[1..] == kept;
        OnceMore(RowIds(kept), below - met, id.value);
        assert ({id.value} + below) - seen == {id.value} + (below - met);
      } else {
        FreshIds(rest, seen);
        assert ReadableIds(rows) - seen == below - seen;
      }
    }
  }

  function FirstId(bug: Value): seq<nat> {
    if IdOf(bug).Some? then [IdOf(bug).value] else []
  }

  lemma SharedFirst(judge: Judge, row: Row, rest: seq<Row>)
    requires judge(row).Shown? ==> IdOf(judge(row).bug) == RowId(row)
    ensures IdsOf(ShownOf(judge, [row] + rest)) == (if judge(row).Shown? then FirstId(row.bug) else []) + IdsOf(ShownOf(judge, rest))
    ensures HiddenIds(judge, [row] + rest) == (if judge(row).Hidden? then FirstId(row.bug) else []) + HiddenIds(judge, rest)
  {
    assert ([row] + rest)[1..] == rest;
    if judge(row).Shown? {
      var bug, shown := judge(row).bug, ShownOf(judge, rest);
      assert ([bug] + shown)[1..] == shown;
      assert ShownOf(judge, [row] + rest) == [bug] + shown;
      assert IdsOf([bug] + shown) == FirstId(bug) + IdsOf(shown);
    } else {
      assert ShownOf(judge, [row] + rest) == ShownOf(judge, rest);
      assert [] + IdsOf(ShownOf(judge, rest)) == IdsOf(ShownOf(judge, rest));
    }
  }

  /** Judging shares the ids of the rows out between the shown and the hidden. */
  lemma {:induction false} SharedOut(judge: Judge, rows: seq<Row>)
    requires KeepsIds(judge)
    ensures multiset(IdsOf(ShownOf(judge, rows))) + multiset(HiddenIds(judge, rows)) == multiset(RowIds(rows))
  {
    if rows != [] {
      var row, rest := rows[0], rows[1..];
      assert rows == [row] + rest;
      SharedOut(judge, rest);
      SharedFirst(judge, row, rest);
      var a, b, c := IdsOf(ShownOf(judge, rest)), HiddenIds(judge, rest), RowIds(rest);
      assert RowIds(rows) == FirstId(row.bug) + c;
      assert [] + a == a && [] + b == b;
      CountsMove(FirstId(row.bug), a, b, c);
    }
  }

  lemma CountsMove(first: seq<nat>, a: seq<nat>, b: seq<nat>, c: seq<nat>)
    requires multiset(a) + multiset(b) == multiset(c)
    ensures multiset(first + a) + multiset(b) == multiset(first + c)
    ensures multiset(a) + multiset(first + b) == multiset(first + c)
  {
  }

  /** For any upstream: every readable id among the scanned rows is visible once or dropped once, never both. */
  lemma VisibleAndDroppedPartition(judge: Judge, scan: Scan)
    requires KeepsIds(judge)
    ensures OnceEach(multiset(IdsOf(Visible(judge, scan))) + multiset(HiddenIds(judge, Deduped(scan.rows))),
                     ReadableIds(scan.rows))
  {
    FreshIds(scan.rows, {});
    SharedOut(judge, Deduped(scan.rows));
    assert ReadableIds(scan.rows) - {} == ReadableIds(scan.rows);
  }

  // ----- hidden rows leave no trace -----

  /** An upstream that answers every request in full from one result list. */
  function Paged(results: seq<Value>): Upstream {
    (count: nat, from: nat) => Ok(PageOf(results, count, from))
  }

  function PageOf(results: seq<Value>, count: nat, from: nat): seq<Value> {
    results[Min(from, |results|)..Min(from + count, |results|)]
  }

  /** The rows of one result list, each with the request of 200 that brings it. */
  function Timed(results: seq<Value>): (rows: seq<Row>)
    ensures |rows| == |results|
    ensures forall i :: 0 <= i < |rows| ==> rows[i] == Row(results[i], i / SEARCH_SCAN_CHUNK)
  {
    seq(|results|, i requires 0 <= i < |results| => Row(results[i], i / SEARCH_SCAN_CHUNK))
  }

  /** A page brings the next rows of the list. */
  lemma PageBrings(results: seq<Value>, scan: Scan, count: nat)
    requires scan.rows <= Timed(results) && |scan.rows| == |scan.asked| * SEARCH_SCAN_CHUNK && count <= SEARCH_SCAN_CHUNK
    ensures var n, rows := |scan.rows|, Timed(results);
      scan.rows + Brought(scan, PageOf(results, count, n)) == rows[..Min(n + count, |rows|)]
  {
    var n, rows, page := |scan.rows|, Timed(results), PageOf(results, count, |scan.rows|);
    var brought := Brought(scan, page);
    forall i | 0 <= i < |brought|
      ensures brought[i] == rows[n + i]
    {
      assert (n + i) / SEARCH_SCAN_CHUNK == |scan.asked|;
    }
  }

  /** Ten full pages reach the end of any list within the scan bound. */
  lemma {:induction false} PagedScan(results: seq<Value>, judge: Judge, scan: Scan)
    requires |results| <= SEARCH_SCAN_MAX && scan.rows <= Timed(results)
    requires |scan.asked| <= SEARCH_SCAN_REQUESTS
    requires scan.rows == Timed(results) || |scan.rows| == |scan.asked| * SEARCH_SCAN_CHUNK
    ensures ScanOn(Paged(results), judge, None, scan).Done?
    ensures ScanOn(Paged(results), judge, None, scan).scan.rows == Timed(results)
    decreases SEARCH_SCAN_REQUESTS - |scan.asked|
  {
    if BoundsLeft(scan) {
      var n, count := |scan.rows|, NextChunk(scan);
      var page := PageOf(results, count, n);
      if scan.rows == Timed(results) {
        assert page == [];
      } else {
        PageBrings(results, scan, count);
      }
      if page != [] {
        PagedScan(results, judge, Advanced(scan, page));
      }
    }
  }

  /**
   * Two result lists that differ only in rows the client may not see (or in
   * repeats and unreadable rows) give the same page, whatever is asked for.
   */
  lemma HiddenRowsDoNotInterfere(judge: Judge, a: seq<Value>, b: seq<Value>, offset: nat, limit: nat)
    requires |a| <= SEARCH_SCAN_MAX && |b| <= SEARCH_SCAN_MAX
    requires ShownOf(judge, Deduped(Timed(a))) == ShownOf(judge, Deduped(Timed(b)))
    ensures Window(Paged(a), judge, offset, limit).Ok? && Window(Paged(b), judge, offset, limit).Ok?
    ensures Window(Paged(a), judge, offset, limit).value.bugs == Window(Paged(b), judge, offset, limit).value.bugs
  {
    if limit > 0 {
      PagedScan(a, judge, START);
      PagedScan(b, judge, START);
      PageIsCut(Paged(a), judge, offset, limit);
      PageIsCut(Paged(b), judge, offset, limit);
    }
  }
}
