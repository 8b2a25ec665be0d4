/**
 * The policy applied to what Bugzilla answers: crates/bugwarden-core/src/guard.rs,
 * `summary_view`, the verdicts of `filter_bug_list`, and `assess`.
 */
module Guard {
  import opened Prelude
  import opened Json
  import opened Policy
  import BugJson
  import Search

  const SUMMARY_FIELDS: set<string> :=
    {"id", "summary", "status", "resolution", "product", "component", "severity", "priority",
     "creation_time", "last_change_time"}

  /** `summary_view`: the summary fields that are there, and a marker. */
  function SummaryView(bug: Value): Value {
    var kept := if bug.Object? then map key | key in bug.fields && key in SUMMARY_FIELDS :: bug.fields[key] else map[];
    Object(kept["_redacted" := Bool(true)])
  }

  function AccessTo(p: Policy, bug: Value, now: Time, caller: Option<string>, w: World): Access {
    Classify(p, BugJson.FromJson(bug, caller, w), now, Accessing, w)
  }

  /** What `filter_bug_list` does with one bug. */
  function ViewOf(p: Policy, bug: Value, now: Time, caller: Option<string>, w: World): Search.View {
    var access := AccessTo(p, bug, now, caller, w);
    if Allows(access, Read) then Search.Shown(bug)
    else if Allows(access, Summary) then Search.Shown(SummaryView(bug))
    else Search.Hidden
  }

  /** The judge of a search: `clock` is what the clock reads while the rows of each request are judged. */
  function JudgeBy(p: Policy, clock: nat -> Time, caller: Option<string>, w: World): Search.Judge {
    (row: Search.Row) => ViewOf(p, row.bug, clock(row.at), caller, w)
  }

  lemma SummaryKeepsId(bug: Value)
    ensures Search.IdOf(SummaryView(bug)) == Search.IdOf(bug)
  {
    assert |"_redacted"| != |"id"|;
    assert "id" in SUMMARY_FIELDS;
  }

  /** A bug is shown under the id the server gave it, summarised or not. */
  lemma ViewsKeepIds(p: Policy, clock: nat -> Time, caller: Option<string>, w: World)
    ensures Search.KeepsIds(JudgeBy(p, clock, caller, w))
  {
    var judge := JudgeBy(p, clock, caller, w);
    forall row: Search.Row
      ensures judge(row).Shown? ==> Search.IdOf(judge(row).bug) == Search.RowId(row)
    {
      SummaryKeepsId(row.bug);
      var view := ViewOf(p, row.bug, clock(row.at), caller, w);
      assert judge(row) == view;
    }
  }

  /** A search shows a bug exactly when the policy allows at least its summary. */
  lemma ShownIffAllowed(p: Policy, bug: Value, now: Time, caller: Option<string>, w: World)
    ensures ViewOf(p, bug, now, caller, w).Shown? <==> Allows(AccessTo(p, bug, now, caller, w), Summary)
    ensures ViewOf(p, bug, now, caller, w) == Search.Shown(bug)
        ==> Allows(AccessTo(p, bug, now, caller, w), Read) || bug == SummaryView(bug)
  {
  }

  /** A summary shows these fields and no other, each as it is in the bug, and says that it is one. */
  lemma SummaryShows(bug: Value)
    ensures var view, fields := SummaryView(bug), {"id", "summary", "status", "resolution", "product", "component",
                                                   "severity", "priority", "creation_time", "last_change_time"};
      && view.Object? && Get(view, "_redacted") == Some(Bool(true))
      && forall key :: key != "_redacted" ==> Get(view, key) == if key in fields then Get(bug, key) else None
  {
  }

  // ----- assess -----

  const MAX_ASSESS_IDS: nat := 25

  /** One classification fetch: the envelope, or nothing on any failure. */
  type Upstream = nat -> Option<Value>

  /** The ids in the order they first occur, leaving out those already met. */
  function FirstSeen(ids: seq<nat>, met: set<nat>): seq<nat> {
    if ids == [] then []
    else if ids[0] in met then FirstSeen(ids[1..], met)
    else [ids[0]] + FirstSeen(ids[1..], met + {ids[0]})
  }

  function Take(n: nat, ids: seq<nat>): seq<nat> {
    ids[..Min(n, |ids|)]
  }

  /** The requests an assessment makes: one for each of the first distinct ids, whatever comes back. */
  function Asked(ids: seq<nat>): seq<nat> {
    Take(MAX_ASSESS_IDS, FirstSeen(ids, {}))
  }

  /** The last bug among the first `n` that the server labels with `id`. */
  function Labelled(bugs: seq<Value>, n: nat, id: nat): Option<Value>
    requires n <= |bugs|
  {
    if n == 0 then None
    else if GetU64(bugs[n - 1], "id") == Some(id) then Some(bugs[n - 1])
    else Labelled(bugs, n - 1, id)
  }

  function BugsOf(envelope: Option<Value>): seq<Value> {
    var bugs := if envelope.Some? then Get(envelope.value, "bugs") else None;
    if bugs.Some? && bugs.value.Array? then bugs.value.items else []
  }

  /** What the server serves under `id`. */
  function Served(bz: Upstream, id: nat): Option<Value> {
    Labelled(BugsOf(bz(id)), |BugsOf(bz(id))|, id)
  }

  /** The verdict on one id: unavailable, unless it was asked for and answered under its own label. */
  function Verdict(p: Policy, bz: Upstream, asked: seq<nat>, id: nat, now: Time, caller: Option<string>, w: World): (Access, Value) {
    if id in asked && Served(bz, id).Some?
    then (AccessTo(p, Served(bz, id).value, now, caller, w), Served(bz, id).value)
    else (Denied(RULE_UNAVAILABLE), Null)
  }

  /** The entry for one id, from what was fetched. */
  function EntryFrom(p: Policy, fetched: map<nat, Value>, id: nat, now: Time, caller: Option<string>, w: World): (Access, Value) {
    if id in fetched then (AccessTo(p, fetched[id], now, caller, w), fetched[id]) else (Denied(RULE_UNAVAILABLE), Null)
  }

  lemma EntryIsVerdict(p: Policy, bz: Upstream, asked: seq<nat>, fetched: map<nat, Value>, id: nat, now: Time, caller: Option<string>, w: World)
    requires Holds(fetched, asked, bz)
    ensures EntryFrom(p, fetched, id, now, caller, w) == Verdict(p, bz, asked, id, now, caller, w)
  {
  }

  /** `assess`. `requests` records the ids fetched, in order. */
  method Assess(p: Policy, bz: Upstream, ids: seq<nat>, now: Time, caller: Option<string>, w: World)
      returns (out: map<nat, (Access, Value)>, requests: seq<nat>)
    ensures requests == Asked(ids)
    ensures out.Keys == set id | id in ids
    ensures forall id :: id in ids ==> out[id] == Verdict(p, bz, Asked(ids), id, now, caller, w)
  {
    var fetched;
    requests, fetched := FetchAll(bz, ids);
    out := map[];
    for i := 0 to |ids|
      invariant out.Keys == set id | id in ids[..i]
      invariant forall id :: id in out ==> out[id] == Verdict(p, bz, requests, id, now, caller, w)
    {
      var id := ids[i];
      assert ids[..i + 1] == ids[..i] + [id];
      EntryIsVerdict(p, bz, requests, fetched, id, now, caller, w);
      out := out[id := EntryFrom(p, fetched, id, now, caller, w)];
    }
    assert ids[..|ids|] == ids;
  }

  /** One fetch: the bug the server labels with the id asked for, never one picked by its position. */
  method Fetch(bz: Upstream, id: nat, before: map<nat, Value>) returns (fetched: map<nat, Value>)
    ensures fetched == match Served(bz, id) case Some(bug) => before[id := bug] case None => before
  {
    fetched := before;
    var bugs := BugsOf(bz(id));
    for k := 0 to |bugs|
      invariant fetched == match Labelled(bugs, k, id) case Some(bug) => before[id := bug] case None => before
    {
      if GetU64(bugs[k], "id") == Some(id) {
        fetched := fetched[id := bugs[k]];
      }
    }
  }

  /** Exactly the ids asked for that the server serves. */
  ghost predicate Holds(fetched: map<nat, Value>, requests: seq<nat>, bz: Upstream) {
    && (forall id :: id in fetched <==> id in requests && Served(bz, id).Some?)
    && (forall id :: id in fetched ==> fetched[id] == Served(bz, id).value)
  }

  lemma NextUnmet(ids: seq<nat>, i: nat, met: set<nat>)
    requires i < |ids|
    ensures FirstSeen(ids[i..], met)
         == if ids[i] in met then FirstSeen(ids[i + 1..], met) else [ids[i]] + FirstSeen(ids[i + 1..], met + {ids[i]})
  {
    var rest := ids[i..];
    assert rest[1..] == ids[i + 1..];
  }

  lemma HoldsNext(fetched: map<nat, Value>, requests: seq<nat>, bz: Upstream, id: nat, after: map<nat, Value>)
    requires Holds(fetched, requests, bz)
    requires after == match Served(bz, id) case Some(bug) => fetched[id := bug] case None => fetched
    ensures Holds(after, requests + [id], bz)
  {
  }

  /** The fetch loop: repeats collapsed, the bound kept, failures skipped. */
  method FetchAll(bz: Upstream, ids: seq<nat>) returns (requests: seq<nat>, fetched: map<nat, Value>)
    ensures requests == Asked(ids)
    ensures Holds(fetched, requests, bz)
  {
    requests, fetched := [], map[];
    var requested: set<nat> := {};
    ghost var all := FirstSeen(ids, {});
    assert ids[0..] == ids;
    for i := 0 to |ids|
      invariant |requests| == |requested| <= MAX_ASSESS_IDS
      invariant all == requests + FirstSeen(ids[i..], requested)
      invariant Holds(fetched, requests, bz)
    {
      var id := ids[i];
      NextUnmet(ids, i, requested);
      if id in requested {
        continue;
      }
      requested := requested + {id};
      if |requested| > MAX_ASSESS_IDS {
        TakesThese(all, requests, [id] + FirstSeen(ids[i + 1..], requested));
        return;
      }
      ghost var before := fetched;
      fetched := Fetch(bz, id, fetched);
      HoldsNext(before, requests, bz, id, fetched);
      ConcatAssoc(requests, [id], FirstSeen(ids[i + 1..], requested));
      requests := requests + [id];
    }
    TakesThese(all, requests, []);
  }

  lemma TakesThese(all: seq<nat>, requests: seq<nat>, rest: seq<nat>)
    requires all == requests + rest && |requests| <= MAX_ASSESS_IDS
    requires rest == [] || |requests| == MAX_ASSESS_IDS
    ensures Take(MAX_ASSESS_IDS, all) == requests
  {
    assert all[..|requests|] == requests;
  }

  // ----- which ids are asked for, and which bug answers -----

  /** The id is new at place `i`. */
  predicate NewAt(ids: seq<nat>, i: nat)
    requires i < |ids|
  {
    ids[i] !in ids[..i]
  }

  /** How many ids are new among the first `n`. */
  function News(ids: seq<nat>, n: nat): nat
    requires n <= |ids|
  {
    if n == 0 then 0 else News(ids, n - 1) + if NewAt(ids, n - 1) then 1 else 0
  }

  lemma {:induction false} FirstSeenNext(ids: seq<nat>, met: set<nat>, id: nat)
    ensures FirstSeen(ids + [id], met) == FirstSeen(ids, met) + if id in met || id in ids then [] else [id]
  {
    if ids == [] {
      assert ids + [id] == [id] && [id][1..] == [];
    } else {
      var rest := ids[1..];
      assert (ids + [id])[1..] == rest + [id] && (ids + [id])[0] == ids[0];
      FirstSeenNext(rest, if ids[0] in met then met else met + {ids[0]}, id);
      assert ids == [ids[0]] + rest;
    }
  }

  lemma SeenNext(ids: seq<nat>, n: nat)
    requires n < |ids|
    ensures FirstSeen(ids[..n + 1], {}) == FirstSeen(ids[..n], {}) + if NewAt(ids, n) then [ids[n]] else []
  {
    assert ids[..n + 1] == ids[..n] + [ids[n]];
    FirstSeenNext(ids[..n], {}, ids[n]);
  }

  lemma {:induction false} SeenCount(ids: seq<nat>, n: nat)
    requires n <= |ids|
    ensures |FirstSeen(ids[..n], {})| == News(ids, n)
  {
    if n > 0 {
      SeenCount(ids, n - 1);
      SeenNext(ids, n - 1);
    }
  }

  lemma {:induction false} FirstSeenAre(ids: seq<nat>, n: nat, i: nat)
    requires i < n <= |ids| && NewAt(ids, i)
    ensures var seen := FirstSeen(ids[..n], {}); News(ids, i) < |seen| && seen[News(ids, i)] == ids[i]
  {
    SeenCount(ids, n - 1);
    SeenNext(ids, n - 1);
    if i < n - 1 {
      FirstSeenAre(ids, n - 1, i);
    }
  }

  /** The `k`-th request is for the `k`-th id that is new, up to 25 of them. */
  lemma AskedInOrder(ids: seq<nat>, i: nat)
    requires i < |ids| && NewAt(ids, i)
    ensures |Asked(ids)| == if News(ids, |ids|) < 25 then News(ids, |ids|) else 25
    ensures if News(ids, i) < 25 then News(ids, i) < |Asked(ids)| && Asked(ids)[News(ids, i)] == ids[i]
            else News(ids, i) >= |Asked(ids)|
  {
    FirstSeenAre(ids, |ids|, i);
    SeenCount(ids, |ids|);
    assert ids[..|ids|] == ids;
  }

  /** The bug that answers for an id is the last one in the answer that is labelled with it, wherever that is. */
  lemma {:induction false} LabelledExactly(bugs: seq<Value>, n: nat, id: nat)
    requires n <= |bugs|
    ensures Labelled(bugs, n, id).None? <==> forall i :: 0 <= i < n ==> GetU64(bugs[i], "id") != Some(id)
    ensures Labelled(bugs, n, id).Some? ==>
      exists i :: 0 <= i < n && GetU64(bugs[i], "id") == Some(id) && Labelled(bugs, n, id).value == bugs[i]
                    && forall j :: i < j < n ==> GetU64(bugs[j], "id") != Some(id)
  {
    if n > 0 && GetU64(bugs[n - 1], "id") != Some(id) {
      LabelledExactly(bugs, n - 1, id);
    }
  }

  /** The work done is a function of the ids alone, and an id past the bound is denied like one that is not there. */
  lemma WorkDependsOnIdsAlone(p: Policy, bz: Upstream, ids: seq<nat>, id: nat, now: Time, caller: Option<string>, w: World)
    ensures |Asked(ids)| <= MAX_ASSESS_IDS
    ensures id !in Asked(ids) ==>
              forall cap :: !Allows(Verdict(p, bz, Asked(ids), id, now, caller, w).0, cap)
  {
  }
}
