/**
 * Whole histories and update responses before and after a scrub, spelt out:
 * crates/bugwarden-core/src/guard.rs, `scrub_history` and `scrub_update_changes`.
 */
module ScrubLaws {
  import opened Prelude
  import opened Json
  import opened LinkLaws
  import CustomFields
  import History
  import HistoryLaws
  import HistoryText
  import UrlScan

  /** Which fields name bugs, and what their texts are left as. */
  datatype Law = Law(naming: string -> bool, left: (string, string, string) -> bool)

  ghost function HistoryLaw(kinds: HistoryLaws.Kinds, baseUrl: string, d: set<nat>): Law {
    Law((field: string) => HistoryLaws.Naming(field, kinds),
        (field: string, was: string, now: string) => HistoryLaws.TextLeft(field, kinds, was, now, baseUrl, d))
  }

  ghost function UpdateLaw(kinds: HistoryLaws.Kinds, baseUrl: string, d: set<nat>): Law {
    Law((field: string) => HistoryLaws.Naming(field, kinds),
        (field: string, was: string, now: string) => HistoryLaws.UpdateTextLeft(field, kinds, was, now, baseUrl, d))
  }

  // ----- one change -----

  /** The text of a value, nothing if it is no text. */
  function TextOf(v: Value): string {
    match v
    case Str(s) => s
    case _ => ""
  }

  function NameOf(change: Value): string {
    if change.Object? && "field_name" in change.fields then TextOf(change.fields["field_name"]) else ""
  }

  /** A half of a change, where there is one, is left as a text. */
  ghost predicate HalfLeft(law: Law, field: string, was: map<string, Value>, now: map<string, Value>, slot: string) {
    slot in was ==> slot in now && now[slot].Str? && law.left(field, TextOf(was[slot]), now[slot].s)
  }

  /** A half of a change has nothing left to say, if it ever had. */
  ghost predicate HalfGone(law: Law, field: string, was: map<string, Value>, slot: string) {
    slot in was ==> law.left(field, TextOf(was[slot]), "")
  }

  ghost predicate BothGone(law: Law, field: string, was: map<string, Value>) {
    HalfGone(law, field, was, "added") && HalfGone(law, field, was, "removed")
  }

  /** A change of a naming field goes when neither half has anything left to say. */
  ghost function Goes(law: Law): Value -> bool {
    (change: Value) => law.naming(NameOf(change)) && (change.Object? ==> BothGone(law, NameOf(change), change.fields))
  }

  /** The same but for the keys in `but`. */
  ghost predicate SameBut(was: map<string, Value>, now: map<string, Value>, but: set<string>) {
    now.Keys == was.Keys && forall key :: key in was && key !in but ==> now[key] == was[key]
  }

  /** A change that stays: its halves are thinned out if its field names bugs, and nothing else is touched. */
  ghost predicate ChangeLeft(law: Law, was: Value, now: Value) {
    if law.naming(NameOf(was)) then
      && was.Object? && now.Object? && SameBut(was.fields, now.fields, {"added", "removed"})
      && HalfLeft(law, NameOf(was), was.fields, now.fields, "added")
      && HalfLeft(law, NameOf(was), was.fields, now.fields, "removed")
    else now == was
  }

  ghost function Becomes(law: Law): Relation<Value> {
    (was: Value, now: Value) => ChangeLeft(law, was, now)
  }

  /** The changes of one entry: some go, the others stay in their order. */
  ghost predicate ChangesLeft(law: Law, was: seq<Value>, now: seq<Value>) {
    Turns(Becomes(law), Goes(law), was, now)
  }

  /** A judge and a keeper are as the law says. */
  ghost predicate Follow(law: Law, judge: History.Judge, keep: History.Keeper) {
    && (forall field :: law.naming(field) <==> judge(field).Some?)
    && forall field, was, now :: law.naming(field) ==> (law.left(field, was, now) <==> now == keep(judge(field).value, was))
  }

  lemma OneChange(law: Law, judge: History.Judge, keep: History.Keeper, change: Value)
    requires Follow(law, judge, keep) && judge(NameOf(change)).Some? && change.Object?
    ensures var c := History.ChangeScrubbed(change, judge(NameOf(change)).value, keep);
      && ChangeLeft(law, change, c)
      && (Goes(law)(change) <==> !History.Says(c, History.ADDED) && !History.Says(c, History.REMOVED))
  {
    History.SlotsAfter(change, judge(NameOf(change)).value, keep);
  }

  lemma SameName(change: Value)
    ensures History.FieldName(change) == NameOf(change)
  {
  }

  lemma {:induction false} ChangesAfter(law: Law, judge: History.Judge, keep: History.Keeper, changes: seq<Value>)
    requires Follow(law, judge, keep)
    ensures ChangesLeft(law, changes, History.ScrubChanges(changes, judge, keep))
  {
    ghost var becomes, goes := Becomes(law), Goes(law);
    if changes == [] {
      TurnsNone(becomes, goes);
    } else {
      var first, rest := changes[0], History.ScrubChanges(changes[1..], judge, keep);
      var kind := judge(NameOf(first));
      SameName(first);
      ChangesAfter(law, judge, keep, changes[1..]);
      if kind.None? {
        assert ([first] + rest)[1..] == rest;
        TurnsKeep(becomes, goes, changes, [first] + rest);
      } else {
        var c := History.ChangeScrubbed(first, kind.value, keep);
        if first.Object? {
          OneChange(law, judge, keep, first);
        }
        if goes(first) {
          TurnsDrop(becomes, goes, changes, rest);
        } else {
          assert ([c] + rest)[1..] == rest;
          TurnsKeep(becomes, goes, changes, [c] + rest);
        }
      }
    }
  }

  // ----- a history -----

  /** An entry with a list of changes. */
  predicate Lists(entry: Value) {
    entry.Object? && "changes" in entry.fields && entry.fields["changes"].Array?
  }

  function ListOf(entry: Value): seq<Value>
    requires Lists(entry)
  {
    entry.fields["changes"].items
  }

  /** An entry that stays: its changes are thinned out if it has any, and nothing else is touched. */
  ghost predicate EntryLeft(law: Law, was: Value, now: Value) {
    if Lists(was) then
      Lists(now) && SameBut(was.fields, now.fields, {"changes"}) && ChangesLeft(law, ListOf(was), ListOf(now))
    else now == was
  }

  /** An entry goes when all its changes do. */
  ghost predicate EntryGoes(law: Law, entry: Value) {
    Lists(entry) && forall change :: change in ListOf(entry) ==> Goes(law)(change)
  }

  ghost function EntryBecomes(law: Law): Relation<Value> {
    (was: Value, now: Value) => EntryLeft(law, was, now)
  }

  ghost function EntryGone(law: Law): Value -> bool {
    (entry: Value) => EntryGoes(law, entry)
  }

  /** A history before and after a scrub. */
  ghost predicate HistoryLeft(law: Law, was: Value, now: Value) {
    if was.Array? then now.Array? && Turns(EntryBecomes(law), EntryGone(law), was.items, now.items) else now == was
  }

  lemma EntryAfter(law: Law, judge: History.Judge, keep: History.Keeper, entry: Value)
    requires Follow(law, judge, keep)
    ensures var e := History.ScrubEntry(entry, judge, keep);
      && EntryLeft(law, entry, e)
      && (EntryGoes(law, entry) <==> History.ChangesOf(e) == Some([]))
  {
    if Lists(entry) {
      var left := History.ScrubChanges(ListOf(entry), judge, keep);
      ChangesAfter(law, judge, keep, ListOf(entry));
      NothingLeft(Becomes(law), Goes(law), ListOf(entry), left);
    }
  }

  lemma {:induction false} EntriesAfter(law: Law, judge: History.Judge, keep: History.Keeper, entries: seq<Value>)
    requires Follow(law, judge, keep)
    ensures Turns(EntryBecomes(law), EntryGone(law), entries, History.ScrubEntries(entries, judge, keep))
  {
    ghost var becomes, goes := EntryBecomes(law), EntryGone(law);
    if entries == [] {
      TurnsNone(becomes, goes);
    } else {
      var e, rest := History.ScrubEntry(entries[0], judge, keep), History.ScrubEntries(entries[1..], judge, keep);
      EntriesAfter(law, judge, keep, entries[1..]);
      EntryAfter(law, judge, keep, entries[0]);
      if goes(entries[0]) {
        TurnsDrop(becomes, goes, entries, rest);
      } else {
        assert ([e] + rest)[1..] == rest;
        TurnsKeep(becomes, goes, entries, [e] + rest);
      }
    }
  }

  lemma HistoryFollows(kinds: HistoryLaws.Kinds, baseUrl: string, d: set<nat>)
    ensures Follow(HistoryLaw(kinds, baseUrl, d), History.JudgeBy(kinds), History.KeeperAt(HistoryText.LocalTo(baseUrl), d))
  {
    var judge, l := History.JudgeBy(kinds), HistoryText.LocalTo(baseUrl);
    forall field
      ensures HistoryLaws.Naming(field, kinds) <==> judge(field).Some?
    {
      HistoryLaws.KindExactly(field, kinds);
    }
    forall field, was, now | HistoryLaws.Naming(field, kinds)
      ensures HistoryLaws.TextLeft(field, kinds, was, now, baseUrl, d) <==> now == HistoryText.KeepIn(judge(field).value, was, l, d)
    {
      HistoryLaws.TextLeftExactly(field, kinds, was, now, baseUrl, d);
    }
  }

  /** What a history is scrubbed to: change by change and entry by entry, as the fields' own names and kinds say. */
  lemma HistoryExactly(history: Value, baseUrl: string, d: set<nat>, kinds: HistoryLaws.Kinds)
    ensures HistoryLeft(HistoryLaw(kinds, baseUrl, d), history, History.Scrubbed(history, baseUrl, d, kinds))
  {
    HistoryFollows(kinds, baseUrl, d);
    if history.Array? {
      EntriesAfter(HistoryLaw(kinds, baseUrl, d), History.JudgeBy(kinds),
                   History.KeeperAt(HistoryText.LocalTo(baseUrl), d), history.items);
    }
  }

  // ----- what a history is read to name -----

  /** Reads `id` as a name in a text of a field. */
  type NamesId = (string, string) -> bool

  ghost function NamesBy(kinds: HistoryLaws.Kinds, baseUrl: string, id: nat): NamesId {
    (field: string, text: string) => HistoryLaws.Naming(field, kinds) && HistoryLaws.TextNames(field, kinds, text, baseUrl, id)
  }

  ghost predicate ChangeNames(names: NamesId, change: Value) {
    change.Object? && exists slot :: slot in {"added", "removed"} && slot in change.fields && change.fields[slot].Str?
                                     && names(NameOf(change), change.fields[slot].s)
  }

  ghost predicate EntryNames(names: NamesId, entry: Value) {
    Lists(entry) && exists change :: change in ListOf(entry) && ChangeNames(names, change)
  }

  /** A history names a bug when a half of a change in one of its entries does. */
  ghost predicate HistoryNames(names: NamesId, history: Value) {
    history.Array? && exists entry :: entry in history.items && EntryNames(names, entry)
  }

  ghost predicate ReadAs(names: NamesId, judge: History.Judge, name: History.Namer, id: nat) {
    forall field, text :: names(field, text) <==> judge(field).Some? && id in name(judge(field).value, text)
  }

  lemma ChangeReads(names: NamesId, judge: History.Judge, name: History.Namer, id: nat, change: Value)
    requires ReadAs(names, judge, name, id)
    ensures id in History.ChangeIds(change, judge, name) <==> ChangeNames(names, change)
  {
    SameName(change);
    var field := NameOf(change);
    if judge(field).Some? && change.Object? {
      SlotReads(change, "added", judge(field).value, name, id);
      SlotReads(change, "removed", judge(field).value, name, id);
    }
  }

  lemma SlotReads(change: Value, slot: string, kind: HistoryText.HistoryLinks, name: History.Namer, id: nat)
    requires change.Object?
    ensures id in History.SlotIds(change, slot, kind, name) <==>
      slot in change.fields && change.fields[slot].Str? && id in name(kind, change.fields[slot].s)
  {
  }

  lemma {:induction false} ChangesRead(names: NamesId, judge: History.Judge, name: History.Namer, id: nat, changes: seq<Value>)
    requires ReadAs(names, judge, name, id)
    ensures id in History.IdsOfChanges(changes, judge, name) <==> exists change :: change in changes && ChangeNames(names, change)
  {
    if changes != [] {
      ChangeReads(names, judge, name, id, changes[0]);
      ChangesRead(names, judge, name, id, changes[1..]);
      assert changes == [changes[0]] + changes[1..];
    }
  }

  lemma EntryReads(names: NamesId, judge: History.Judge, name: History.Namer, id: nat, entry: Value)
    requires ReadAs(names, judge, name, id)
    ensures id in History.IdsOfEntry(entry, judge, name) <==> EntryNames(names, entry)
  {
    if Lists(entry) {
      assert History.ChangesOf(entry) == Some(ListOf(entry));
      ChangesRead(names, judge, name, id, ListOf(entry));
    } else {
      assert History.ChangesOf(entry).None?;
    }
  }

  lemma {:induction false} EntriesRead(names: NamesId, judge: History.Judge, name: History.Namer, id: nat, entries: seq<Value>)
    requires ReadAs(names, judge, name, id)
    ensures id in History.IdsOfEntries(entries, judge, name) <==> exists entry :: entry in entries && EntryNames(names, entry)
  {
    if entries != [] {
      EntryReads(names, judge, name, id, entries[0]);
      EntriesRead(names, judge, name, id, entries[1..]);
      assert entries == [entries[0]] + entries[1..];
    }
  }

  lemma ReadFollows(kinds: HistoryLaws.Kinds, baseUrl: string, id: nat)
    ensures ReadAs(NamesBy(kinds, baseUrl, id), History.JudgeBy(kinds), History.NamerAt(HistoryText.LocalTo(baseUrl)), id)
  {
    forall field, text
      ensures NamesBy(kinds, baseUrl, id)(field, text) <==>
        History.JudgeBy(kinds)(field).Some?
        && id in HistoryText.IdsIn(History.JudgeBy(kinds)(field).value, text, HistoryText.LocalTo(baseUrl))
    {
      HistoryLaws.KindExactly(field, kinds);
      if HistoryLaws.Naming(field, kinds) {
        HistoryLaws.TextReadExactly(field, kinds, text, baseUrl, id);
      }
    }
  }

  /** The bugs a history is read to name are exactly those its texts name; once scrubbed it names none outside the set. */
  lemma HistoryReadExactly(history: Value, baseUrl: string, d: set<nat>, kinds: HistoryLaws.Kinds, id: nat)
    ensures id in History.HistoryBugIds(history, baseUrl, kinds) <==> HistoryNames(NamesBy(kinds, baseUrl, id), history)
    ensures HistoryNames(NamesBy(kinds, baseUrl, id), History.Scrubbed(history, baseUrl, d, kinds)) ==> id in d
  {
    HistoryReads(history, baseUrl, kinds, id);
    HistoryReads(History.Scrubbed(history, baseUrl, d, kinds), baseUrl, kinds, id);
    History.ScrubIsSound(history, baseUrl, d, kinds);
  }

  lemma HistoryReads(history: Value, baseUrl: string, kinds: HistoryLaws.Kinds, id: nat)
    ensures id in History.HistoryBugIds(history, baseUrl, kinds) <==> HistoryNames(NamesBy(kinds, baseUrl, id), history)
  {
    ReadFollows(kinds, baseUrl, id);
    if history.Array? {
      EntriesRead(NamesBy(kinds, baseUrl, id), History.JudgeBy(kinds), History.NamerAt(HistoryText.LocalTo(baseUrl)), id, history.items);
    }
  }

  // ----- an update response -----

  /** The entry of a bug of the set. */
  predicate About(bug: Value, d: set<nat>) {
    bug.Object? && "id" in bug.fields && NumberIn(bug.fields["id"], d)
  }

  function HalvesOf(change: Value): map<string, Value> {
    if change.Object? then change.fields else map[]
  }

  /** What is left of the changes of one bug: those of other fields as they were, of the rest the two halves while one says something. */
  ghost predicate FieldsLeft(law: Law, was: map<string, Value>, now: map<string, Value>) {
    && (forall field :: field in now ==> field in was)
    && forall field :: field in was ==>
         if !law.naming(field) then field in now && now[field] == was[field]
         else if BothGone(law, field, HalvesOf(was[field])) then field !in now
         else field in now && now[field].Object? && HalvesLeft(law, field, HalvesOf(was[field]), now[field].fields)
  }

  ghost predicate HalvesLeft(law: Law, field: string, was: map<string, Value>, now: map<string, Value>) {
    && (forall slot :: slot in now <==> slot in was && slot in {"added", "removed"})
    && HalfLeft(law, field, was, now, "added") && HalfLeft(law, field, was, now, "removed")
  }

  /** What is left of an entry: its changes thinned out, or dropped if they are not an object. */
  ghost predicate BugLeft(law: Law, was: Value, now: Value) {
    if !(was.Object? && "changes" in was.fields) then now == was
    else if !was.fields["changes"].Object? then now == Object(was.fields - {"changes"})
    else
      && now.Object? && SameBut(was.fields, now.fields, {"changes"}) && now.fields["changes"].Object?
      && FieldsLeft(law, was.fields["changes"].fields, now.fields["changes"].fields)
  }

  ghost function BugBecomes(law: Law): Relation<Value> {
    (was: Value, now: Value) => BugLeft(law, was, now)
  }

  function Elsewhere(d: set<nat>): Value -> bool {
    (bug: Value) => !About(bug, d)
  }

  /** An update response before and after a scrub. */
  ghost predicate UpdateLeft(law: Law, d: set<nat>, was: Value, now: Value) {
    if !(was.Object? && "bugs" in was.fields) then now == was
    else if !was.fields["bugs"].Array? then now == Object(was.fields - {"bugs"})
    else
      && now.Object? && SameBut(was.fields, now.fields, {"bugs"}) && now.fields["bugs"].Array?
      && Turns(BugBecomes(law), Elsewhere(d), was.fields["bugs"].items, now.fields["bugs"].items)
  }

  lemma HalvesAfter(law: Law, judge: History.Judge, keep: History.Keeper, field: string, change: Value)
    requires Follow(law, judge, keep) && law.naming(field)
    ensures var halves := History.UpdateHalves(change, judge(field).value, keep);
      && HalvesLeft(law, field, HalvesOf(change), halves)
      && (BothGone(law, field, HalvesOf(change)) <==> !History.HalfSays(halves))
  {
    var halves := History.UpdateHalves(change, judge(field).value, keep);
    forall slot | slot in {"added", "removed"}
      ensures slot in halves <==> slot in HalvesOf(change)
      ensures slot in halves ==> halves[slot] == Str(keep(judge(field).value, TextOf(HalvesOf(change)[slot])))
    {
    }
    assert History.HalfSays(halves) <==>
      ("added" in halves && halves["added"] != Str([])) || ("removed" in halves && halves["removed"] != Str([]));
  }

  lemma FieldsAfter(law: Law, judge: History.Judge, keep: History.Keeper, changes: map<string, Value>)
    requires Follow(law, judge, keep)
    ensures FieldsLeft(law, changes, History.UpdateChanges(changes, judge, keep))
  {
    forall field | field in changes && law.naming(field)
      ensures var halves := History.UpdateHalves(changes[field], judge(field).value, keep);
        && HalvesLeft(law, field, HalvesOf(changes[field]), halves)
        && (BothGone(law, field, HalvesOf(changes[field])) <==> !History.HalfSays(halves))
    {
      HalvesAfter(law, judge, keep, field, changes[field]);
    }
  }

  lemma BugAfter(law: Law, judge: History.Judge, keep: History.Keeper, bug: Value)
    requires Follow(law, judge, keep)
    ensures BugLeft(law, bug, History.UpdateBug(bug, judge, keep))
  {
    if bug.Object? && "changes" in bug.fields && bug.fields["changes"].Object? {
      FieldsAfter(law, judge, keep, bug.fields["changes"].fields);
    }
  }

  lemma {:induction false} BugsAfter(law: Law, judge: History.Judge, keep: History.Keeper, d: set<nat>, bugs: seq<Value>)
    requires Follow(law, judge, keep)
    ensures Turns(BugBecomes(law), Elsewhere(d), bugs, History.UpdateBugs(bugs, d, judge, keep))
  {
    ghost var becomes, goes := BugBecomes(law), Elsewhere(d);
    if bugs == [] {
      TurnsNone(becomes, goes);
    } else {
      var rest := History.UpdateBugs(bugs[1..], d, judge, keep);
      BugsAfter(law, judge, keep, d, bugs[1..]);
      BugAfter(law, judge, keep, bugs[0]);
      if goes(bugs[0]) {
        assert [] + rest == rest;
        TurnsDrop(becomes, goes, bugs, rest);
      } else {
        assert ([History.UpdateBug(bugs[0], judge, keep)] + rest)[1..] == rest;
        TurnsKeep(becomes, goes, bugs, [History.UpdateBug(bugs[0], judge, keep)] + rest);
      }
    }
  }

  lemma UpdateFollows(kinds: HistoryLaws.Kinds, baseUrl: string, d: set<nat>)
    ensures Follow(UpdateLaw(kinds, baseUrl, d), History.JudgeBy(kinds), History.UpdateKeeperAt(HistoryText.LocalTo(baseUrl), d))
  {
    var judge, l := History.JudgeBy(kinds), HistoryText.LocalTo(baseUrl);
    forall field
      ensures HistoryLaws.Naming(field, kinds) <==> judge(field).Some?
    {
      HistoryLaws.KindExactly(field, kinds);
    }
    forall field, was, now | HistoryLaws.Naming(field, kinds)
      ensures HistoryLaws.UpdateTextLeft(field, kinds, was, now, baseUrl, d)
         <==> now == HistoryText.KeepInUpdate(judge(field).value, was, l, d)
    {
      HistoryLaws.UpdateTextLeftExactly(field, kinds, was, now, baseUrl, d);
    }
  }

  /** What an update response is scrubbed to. */
  lemma UpdateExactly(result: Value, baseUrl: string, d: set<nat>, kinds: HistoryLaws.Kinds)
    ensures UpdateLeft(UpdateLaw(kinds, baseUrl, d), d, result,
      History.UpdateScrubbed(result, d, History.JudgeBy(kinds), History.UpdateKeeperAt(HistoryText.LocalTo(baseUrl), d)))
  {
    var judge, keep := History.JudgeBy(kinds), History.UpdateKeeperAt(HistoryText.LocalTo(baseUrl), d);
    UpdateFollows(kinds, baseUrl, d);
    if result.Object? && "bugs" in result.fields && result.fields["bugs"].Array? {
      BugsAfter(UpdateLaw(kinds, baseUrl, d), judge, keep, d, result.fields["bugs"].items);
    }
  }
}
