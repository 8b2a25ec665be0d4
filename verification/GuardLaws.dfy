/**
 * What is shown of a bug and what a write is told about it, from the object the
 * server sent to the verdict: crates/bugwarden-core/src/guard.rs as documented.
 */
module GuardLaws {
  import opened Prelude
  import opened Json
  import opened Policy
  import BugJson
  import Guard
  import PolicyExact
  import Search

  // ----- reading a bug -----

  /** The names read under a key: those it sends, or none it could be taken to send. */
  ghost predicate NamesRead(v: Value, key: string, names: Option<seq<string>>) {
    match names
    case Some(given) => BugJson.SendsNames(Get(v, key), given)
    case None => forall given :: !BugJson.SendsNames(Get(v, key), given)
  }

  ghost predicate WhiteboardRead(v: Value, text: Option<string>) {
    match text
    case Some(given) => BugJson.SendsWhiteboard(v, given)
    case None => forall given :: !BugJson.SendsWhiteboard(v, given)
  }

  /** All that is read of a bug object, key by key. */
  ghost predicate SaysOf(v: Value, caller: Option<string>, w: World, b: BugMeta) {
    && b.summary == GetStr(v, "summary") && b.product == GetStr(v, "product") && b.status == GetStr(v, "status")
    && b.severity == GetStr(v, "severity") && b.priority == GetStr(v, "priority")
    && NamesRead(v, "component", b.components) && NamesRead(v, "keywords", b.keywords) && NamesRead(v, "groups", b.groups)
    && WhiteboardRead(v, b.whiteboard)
    && b.creationTime == (if GetStr(v, "creation_time").Some? then w.parseTime(GetStr(v, "creation_time").value) else None)
    && b.createdByMe == (if caller.Some? && GetStr(v, "creator").Some?
                         then Some(w.lower(caller.value) == w.lower(GetStr(v, "creator").value)) else None)
  }

  lemma NamesReadExactly(v: Value, key: string, names: Option<seq<string>>)
    ensures NamesRead(v, key, names) <==> names == BugJson.ListOf(Get(v, key))
  {
    forall given
      ensures BugJson.SendsNames(Get(v, key), given) <==> BugJson.ListOf(Get(v, key)) == Some(given)
    {
      BugJson.NamesExactly(Get(v, key), given);
    }
  }

  lemma WhiteboardReadExactly(v: Value, text: Option<string>)
    ensures WhiteboardRead(v, text) <==> text == BugJson.Whiteboard(v)
  {
    forall given
      ensures BugJson.SendsWhiteboard(v, given) <==> BugJson.Whiteboard(v) == Some(given)
    {
      BugJson.WhiteboardExactly(v, given);
    }
  }

  /** Nothing else is read of a bug, and nothing less. */
  lemma ReadExactly(v: Value, caller: Option<string>, w: World, b: BugMeta)
    ensures SaysOf(v, caller, w, b) <==> b == BugJson.FromJson(v, caller, w)
  {
    NamesReadExactly(v, "component", b.components);
    NamesReadExactly(v, "keywords", b.keywords);
    NamesReadExactly(v, "groups", b.groups);
    WhiteboardReadExactly(v, b.whiteboard);
  }

  // ----- what is shown, what is answered -----

  /** A bug is shown whole to who may read it, in summary to who may see that, and not at all to others. */
  lemma ViewExactly(p: Policy, bug: Value, now: Time, caller: Option<string>, w: World, b: BugMeta)
    requires SaysOf(bug, caller, w, b)
    ensures Guard.ViewOf(p, bug, now, caller, w) ==
      if PolicyExact.Permitted(p, b, now, Accessing, w, Read) then Search.Shown(bug)
      else if PolicyExact.Permitted(p, b, now, Accessing, w, Summary) then Search.Shown(Guard.SummaryView(bug))
      else Search.Hidden
  {
    ReadExactly(bug, caller, w, b);
    PolicyExact.AccessExactly(p, b, now, Accessing, w, Read);
    PolicyExact.AccessExactly(p, b, now, Accessing, w, Summary);
  }

  /** The answer holds the bug under its own label, and none with that label behind it. */
  ghost predicate Answers(answer: Option<Value>, id: nat, bug: Value) {
    && answer.Some? && Get(answer.value, "bugs").Some? && Get(answer.value, "bugs").value.Array?
    && LastLabelled(Get(answer.value, "bugs").value.items, id, bug)
  }

  ghost predicate LastLabelled(bugs: seq<Value>, id: nat, bug: Value) {
    exists i :: 0 <= i < |bugs| && bugs[i] == bug && GetU64(bug, "id") == Some(id)
                && forall j :: i < j < |bugs| ==> GetU64(bugs[j], "id") != Some(id)
  }

  /** Among the first 25 ids that are new. */
  ghost predicate WithinBound(ids: seq<nat>, id: nat) {
    exists i :: 0 <= i < |ids| && ids[i] == id && id !in ids[..i] && Guard.News(ids, i) < 25
  }

  lemma ServedExactly(bz: Guard.Upstream, id: nat, bug: Value)
    ensures Guard.Served(bz, id) == Some(bug) <==> Answers(bz(id), id, bug)
  {
    var bugs := Guard.BugsOf(bz(id));
    Guard.LabelledExactly(bugs, |bugs|, id);
  }

  lemma {:induction false} AskedAreNew(ids: seq<nat>, n: nat)
    requires n <= |ids|
    ensures forall id :: id in Guard.FirstSeen(ids[..n], {}) ==> exists i :: 0 <= i < n && ids[i] == id && Guard.NewAt(ids, i)
  {
    if n > 0 {
      AskedAreNew(ids, n - 1);
      Guard.SeenNext(ids, n - 1);
    }
  }

  lemma {:induction false} SeenOnce(ids: seq<nat>, n: nat)
    requires n <= |ids|
    ensures var seen := Guard.FirstSeen(ids[..n], {});
      && (forall id :: id in seen ==> id in ids[..n])
      && forall i, j :: 0 <= i < j < |seen| ==> seen[i] != seen[j]
  {
    if n > 0 {
      SeenOnce(ids, n - 1);
      Guard.SeenNext(ids, n - 1);
      assert ids[..n] == ids[..n - 1] + [ids[n - 1]];
    }
  }

  lemma AskedExactly(ids: seq<nat>, id: nat)
    ensures id in Guard.Asked(ids) <==> WithinBound(ids, id)
  {
    var n, seen := |ids|, Guard.FirstSeen(ids, {});
    assert ids[..n] == ids;
    SeenOnce(ids, n);
    if id in Guard.Asked(ids) {
      AskedAreNew(ids, n);
      assert id in seen;
      var i :| 0 <= i < n && ids[i] == id && Guard.NewAt(ids, i);
      Guard.FirstSeenAre(ids, n, i);
      assert seen[Guard.News(ids, i)] == id;
      Guard.AskedInOrder(ids, i);
    }
    if i :| 0 <= i < |ids| && ids[i] == id && id !in ids[..i] && Guard.News(ids, i) < 25 {
      Guard.AskedInOrder(ids, i);
    }
  }

  /**
   * A write may do to a bug what the policy permits to the bug that answers for
   * its id, if it was asked for at all; for want of such a bug, nothing.
   */
  lemma VerdictExactly(p: Policy, bz: Guard.Upstream, ids: seq<nat>, id: nat, now: Time, caller: Option<string>, w: World, cap: Capability)
    ensures var (access, bug) := Guard.Verdict(p, bz, Guard.Asked(ids), id, now, caller, w);
      && (Allows(access, cap) <==>
            WithinBound(ids, id) && Answers(bz(id), id, bug)
            && exists b :: SaysOf(bug, caller, w, b) && PolicyExact.Permitted(p, b, now, Accessing, w, cap))
      && (bug == Null || (WithinBound(ids, id) && Answers(bz(id), id, bug)))
  {
    var (access, bug) := Guard.Verdict(p, bz, Guard.Asked(ids), id, now, caller, w);
    AskedExactly(ids, id);
    ServedExactly(bz, id, bug);
    assert !Answers(bz(id), id, Null);
    var meta := BugJson.FromJson(bug, caller, w);
    PolicyExact.AccessExactly(p, meta, now, Accessing, w, cap);
    forall b
      ensures SaysOf(bug, caller, w, b) <==> b == meta
    {
      ReadExactly(bug, caller, w, b);
    }
  }
}
