/**
 * What a search does, said without its loops: crates/bugwarden-core/src/guard.rs,
 * `quicksearch_window`, as its documentation describes it.
 */
module SearchLaws {
  import opened Prelude
  import opened Json
  import opened Search

  // ----- which bugs are visible, and which are dropped -----

  /** The row is the first to carry its id. */
  ghost predicate First(rows: seq<Row>, i: nat)
    requires i < |rows|
  {
    && GetU64(rows[i].bug, "id").Some?
    && forall j :: 0 <= j < i ==> GetU64(rows[j].bug, "id") != GetU64(rows[i].bug, "id")
  }

  /** What the judge shows of the first `n` rows that are the first with their id. */
  ghost function VisibleIn(judge: Judge, rows: seq<Row>, n: nat): seq<Value>
    requires n <= |rows|
  {
    if n == 0 then []
    else
      VisibleIn(judge, rows, n - 1)
      + if First(rows, n - 1) && judge(rows[n - 1]).Shown? then [judge(rows[n - 1]).bug] else []
  }

  /** The ids of those it does not show. */
  ghost function DroppedIn(judge: Judge, rows: seq<Row>, n: nat): seq<nat>
    requires n <= |rows|
  {
    if n == 0 then []
    else
      DroppedIn(judge, rows, n - 1)
      + if First(rows, n - 1) && judge(rows[n - 1]).Hidden? then [GetU64(rows[n - 1].bug, "id").value] else []
  }

  lemma FreshOne(rows: seq<Row>, n: nat)
    requires n < |rows|
    ensures Fresh([rows[n]], ReadableIds(rows[..n])) == if First(rows, n) then [rows[n]] else []
  {
    var row, before := rows[n], rows[..n];
    assert [row][1..] == [];
    if RowId(row).Some? && RowId(row).value in ReadableIds(before) {
      var r :| r in before && RowId(r) == RowId(row);
      var j :| 0 <= j < n && before[j] == r;
      assert rows[j] == r;
    } else if RowId(row).Some? {
      forall j | 0 <= j < n
        ensures GetU64(rows[j].bug, "id") != GetU64(row.bug, "id")
      {
        assert before[j] == rows[j] && rows[j] in before;
        assert RowId(rows[j]).Some? ==> RowId(rows[j]).value in ReadableIds(before);
      }
    }
  }

  lemma DedupedNext(rows: seq<Row>, n: nat)
    requires n < |rows|
    ensures Deduped(rows[..n + 1]) == Deduped(rows[..n]) + if First(rows, n) then [rows[n]] else []
  {
    assert rows[..n + 1] == rows[..n] + [rows[n]];
    FreshAppend(rows[..n], [rows[n]], {});
    assert {} + ReadableIds(rows[..n]) == ReadableIds(rows[..n]);
    FreshOne(rows, n);
  }

  lemma OneRow(judge: Judge, row: Row)
    ensures ShownOf(judge, [row]) == if judge(row).Shown? then [judge(row).bug] else []
    ensures HiddenIds(judge, [row]) == if judge(row).Hidden? && RowId(row).Some? then [RowId(row).value] else []
  {
    assert [row][1..] == [];
  }

  lemma VisibleNext(judge: Judge, rows: seq<Row>, n: nat, kept: seq<Row>)
    requires n < |rows| && ShownOf(judge, kept) == VisibleIn(judge, rows, n)
    ensures ShownOf(judge, kept + if First(rows, n) then [rows[n]] else []) == VisibleIn(judge, rows, n + 1)
  {
    var next := if First(rows, n) then [rows[n]] else [];
    ShownAppend(judge, kept, next);
    OneRow(judge, rows[n]);
  }

  lemma DroppedNext(judge: Judge, rows: seq<Row>, n: nat, kept: seq<Row>)
    requires n < |rows| && HiddenIds(judge, kept) == DroppedIn(judge, rows, n)
    ensures HiddenIds(judge, kept + if First(rows, n) then [rows[n]] else []) == DroppedIn(judge, rows, n + 1)
  {
    var next := if First(rows, n) then [rows[n]] else [];
    HiddenAppend(judge, kept, next);
    OneRow(judge, rows[n]);
  }

  /** The scan's visible bugs and dropped ids are those. */
  lemma {:induction false} VisibleByDefinition(judge: Judge, rows: seq<Row>, n: nat)
    requires n <= |rows|
    ensures ShownOf(judge, Deduped(rows[..n])) == VisibleIn(judge, rows, n)
    ensures HiddenIds(judge, Deduped(rows[..n])) == DroppedIn(judge, rows, n)
  {
    if n > 0 {
      VisibleByDefinition(judge, rows, n - 1);
      VisibleNext(judge, rows, n - 1, Deduped(rows[..n - 1]));
      DroppedNext(judge, rows, n - 1, Deduped(rows[..n - 1]));
      DedupedNext(rows, n - 1);
    }
  }

  ghost function AllVisible(judge: Judge, rows: seq<Row>): seq<Value> {
    VisibleIn(judge, rows, |rows|)
  }

  lemma VisibleAsDefined(judge: Judge, rows: seq<Row>)
    ensures ShownOf(judge, Deduped(rows)) == AllVisible(judge, rows)
    ensures HiddenIds(judge, Deduped(rows)) == DroppedIn(judge, rows, |rows|)
  {
    VisibleByDefinition(judge, rows, |rows|);
    assert rows[..|rows|] == rows;
  }

  // ----- which requests are made, and when they stop -----

  /** The request made once `rows` have come: 200 rows or what is left of 2000, from where the last ended. */
  function RequestAfter(rows: seq<Row>): (nat, nat) {
    (if 2000 - |rows| >= 200 then 200 else if |rows| <= 2000 then 2000 - |rows| else 0, |rows|)
  }

  /** The rows the first `n` requests bring, one after the other. */
  function RowsOf(up: Upstream, n: nat): seq<Row> {
    if n == 0 then []
    else
      var rows := RowsOf(up, n - 1);
      var answer := up(RequestAfter(rows).0, RequestAfter(rows).1);
      if answer.Ok? then rows + seq(|answer.value|, i requires 0 <= i < |answer.value| => Row(answer.value[i], n - 1)) else rows
  }

  /** After `n` requests the scan goes on: fewer than 2000 rows, than ten requests, than `target` visible bugs if one is set. */
  ghost predicate GoesOn(up: Upstream, judge: Judge, target: Option<nat>, n: nat) {
    |RowsOf(up, n)| < 2000 && n < 10 && (target.Some? ==> |AllVisible(judge, RowsOf(up, n))| < target.value)
  }

  function Answer(up: Upstream, n: nat): Result<seq<Value>, string> {
    up(RequestAfter(RowsOf(up, n)).0, RequestAfter(RowsOf(up, n)).1)
  }

  /** The scan that made `m` requests, in those terms: where it stood before each, and why it went no further. */
  ghost predicate Scanned(up: Upstream, judge: Judge, target: Option<nat>, o: Outcome) {
    var asked := o.scan.asked;
    var m := |asked|;
    && (forall k :: 0 <= k < m ==> GoesOn(up, judge, target, k) && asked[k] == RequestAfter(RowsOf(up, k)))
    && (forall k :: 0 <= k < m - 1 ==> Answer(up, k).Ok? && Answer(up, k).value != [])
    && o.scan.rows == RowsOf(up, m)
    && (o.Failed? <==> m > 0 && Answer(up, m - 1).Err?)
    && (o.Failed? ==> o.error == Answer(up, m - 1).error)
    && (o.Done? && GoesOn(up, judge, target, m) ==> m > 0 && Answer(up, m - 1) == Ok([]))
  }

  /** A scan under way that has made `n` requests, all of them answered with rows. */
  ghost predicate UnderWay(up: Upstream, judge: Judge, target: Option<nat>, scan: Scan) {
    var n := |scan.asked|;
    && scan.rows == RowsOf(up, n)
    && forall k :: 0 <= k < n ==>
         && GoesOn(up, judge, target, k) && scan.asked[k] == RequestAfter(RowsOf(up, k))
         && Answer(up, k).Ok? && Answer(up, k).value != []
  }

  lemma GoesOnIffBounds(up: Upstream, judge: Judge, target: Option<nat>, scan: Scan)
    requires scan.rows == RowsOf(up, |scan.asked|)
    ensures GoesOn(up, judge, target, |scan.asked|) <==> BoundsLeft(scan) && (target.Some? ==> |Visible(judge, scan)| < target.value)
    ensures NextRequest(scan) == RequestAfter(scan.rows)
    ensures Answer(up, |scan.asked|) == up(NextChunk(scan), |scan.rows|)
    ensures var answer := Answer(up, |scan.asked|);
      RowsOf(up, |scan.asked| + 1) == if answer.Ok? then Advanced(scan, answer.value).rows else scan.rows
  {
    VisibleAsDefined(judge, scan.rows);
  }

  lemma StopsHere(up: Upstream, judge: Judge, target: Option<nat>, scan: Scan)
    requires UnderWay(up, judge, target, scan) && !GoesOn(up, judge, target, |scan.asked|)
    ensures Scanned(up, judge, target, Done(scan))
  {
  }

  lemma AskedLast(up: Upstream, judge: Judge, target: Option<nat>, scan: Scan, o: Outcome)
    requires UnderWay(up, judge, target, scan) && GoesOn(up, judge, target, |scan.asked|)
    requires o.scan == Scan(scan.rows, scan.asked + [RequestAfter(scan.rows)])
    requires match Answer(up, |scan.asked|)
             case Err(e) => o == Failed(o.scan, e)
             case Ok(bugs) => bugs == [] && o == Done(o.scan)
    ensures Scanned(up, judge, target, o)
  {
    var n, asked := |scan.asked|, o.scan.asked;
    GoesOnIffBounds(up, judge, target, scan);
    assert Answer(up, n).Ok? ==> Advanced(scan, []).rows == scan.rows;
    assert o.scan.rows == RowsOf(up, n + 1);
    forall k | 0 <= k < n + 1
      ensures GoesOn(up, judge, target, k) && asked[k] == RequestAfter(RowsOf(up, k))
    {
      assert k < n ==> asked[k] == scan.asked[k];
    }
  }

  lemma {:induction false} ScannedFrom(up: Upstream, judge: Judge, target: Option<nat>, scan: Scan)
    requires UnderWay(up, judge, target, scan)
    ensures Scanned(up, judge, target, ScanOn(up, judge, target, scan))
    decreases SEARCH_SCAN_REQUESTS - |scan.asked|
  {
    GoesOnIffBounds(up, judge, target, scan);
    var answer, o := Answer(up, |scan.asked|), ScanOn(up, judge, target, scan);
    if !GoesOn(up, judge, target, |scan.asked|) {
      StopsHere(up, judge, target, scan);
    } else if answer.Ok? && answer.value != [] {
      UnderWayNext(up, judge, target, scan, answer.value);
      ScannedFrom(up, judge, target, Advanced(scan, answer.value));
    } else {
      assert Advanced(scan, []).rows == scan.rows;
      AskedLast(up, judge, target, scan, o);
    }
  }

  lemma UnderWayNext(up: Upstream, judge: Judge, target: Option<nat>, scan: Scan, bugs: seq<Value>)
    requires UnderWay(up, judge, target, scan) && GoesOn(up, judge, target, |scan.asked|)
    requires Answer(up, |scan.asked|) == Ok(bugs) && bugs != []
    ensures UnderWay(up, judge, target, Advanced(scan, bugs))
  {
    GoesOnIffBounds(up, judge, target, scan);
  }

  lemma TargetOf(offset: nat, limit: nat)
    ensures var reach := if offset + limit < 1000 then offset + limit else 1000;
      Target(Needed(offset, limit)) == (reach + 199) / 200 * 200
  {
  }

  lemma PageOf(up: Upstream, judge: Judge, offset: nat, limit: nat, o: Outcome)
    requires limit > 0 && o == ScanOn(up, judge, Some(Target(Needed(offset, limit))), START)
    ensures Work(up, judge, offset, limit) == o.scan.asked
    ensures var page := Window(up, judge, offset, limit);
      && (page.Err? <==> o.Failed?) && (page.Err? ==> page.error == o.error)
      && (page.Ok? ==> page.value.scanned == |o.scan.rows| && page.value.dropped == HiddenIds(judge, Deduped(o.scan.rows)))
  {
  }

  /**
   * Every page: the scan behind it asks and stops as the bounds of 200, 2000 and
   * ten say, and the page reports the rows scanned and the ids dropped of it.
   * A limit of nothing asks for nothing.
   */
  lemma PageAccounts(up: Upstream, judge: Judge, offset: nat, limit: nat) returns (o: Outcome)
    ensures var page, asked := Window(up, judge, offset, limit), Work(up, judge, offset, limit);
      if limit == 0 then page == Ok(SearchWindow([], 0, [])) && asked == []
      else
        var reach := if offset + limit < 1000 then offset + limit else 1000;
        && Scanned(up, judge, Some((reach + 199) / 200 * 200), o) && asked == o.scan.asked
        && (page.Err? <==> o.Failed?) && (page.Err? ==> page.error == o.error)
        && (page.Ok? ==>
              && page.value.scanned == |o.scan.rows|
              && page.value.dropped == DroppedIn(judge, o.scan.rows, |o.scan.rows|))
  {
    var target := Target(Needed(offset, limit));
    o := ScanOn(up, judge, Some(target), START);
    if limit > 0 {
      ScannedFrom(up, judge, Some(target), START);
      TargetOf(offset, limit);
      PageOf(up, judge, offset, limit, o);
      VisibleAsDefined(judge, o.scan.rows);
    }
  }

  /** The list every page is cut from: what is visible of the rows a scan without a target brings. */
  lemma CanonicalIsVisible(up: Upstream, judge: Judge) returns (o: Outcome)
    ensures Scanned(up, judge, None, o) && o == ScanOn(up, judge, None, START)
    ensures Canonical(up, judge) == AllVisible(judge, o.scan.rows)
  {
    o := ScanOn(up, judge, None, START);
    ScannedFrom(up, judge, None, START);
    VisibleAsDefined(judge, o.scan.rows);
  }
}
