/**
 * Scrubbing change histories and update responses:
 * crates/bugwarden-core/src/guard.rs, `walk_history`, `scrub_history`,
 * `scrub_update_changes`.
 */
module History {
  import opened Prelude
  import opened Json
  import opened HistoryText
  import CustomFields
  import Links

  /** How a field is judged, what its text names, and what is kept of it. */
  type Judge = string -> Option<HistoryLinks>
  type Namer = (HistoryLinks, string) -> set<nat>
  type Keeper = (HistoryLinks, string) -> string

  function JudgeBy(kinds: map<string, CustomFields.CustomFieldKind>): Judge {
    (field: string) => LinkKind(field, kinds)
  }

  function NamerAt(l: Local): Namer {
    (kind: HistoryLinks, value: string) => IdsIn(kind, value, l)
  }

  function KeeperAt(l: Local, d: set<nat>): Keeper {
    (kind: HistoryLinks, value: string) => KeepIn(kind, value, l, d)
  }

  function UpdateKeeperAt(l: Local, d: set<nat>): Keeper {
    (kind: HistoryLinks, value: string) => KeepInUpdate(kind, value, l, d)
  }

  function UpdateNamerAt(l: Local): Namer {
    (kind: HistoryLinks, value: string) => NamedIn(kind, value, l)
  }

  // ----- one change -----

  const ADDED := "added"
  const REMOVED := "removed"

  function StrOrEmpty(v: Value): string {
    if v.Str? then v.s else []
  }

  function FieldName(change: Value): string {
    var name := GetStr(change, "field_name");
    if name.Some? then name.value else []
  }

  /** One half of a change, replaced by what is kept of it. */
  function SlotScrubbed(fields: map<string, Value>, slot: string, kind: HistoryLinks, keep: Keeper): map<string, Value> {
    if slot in fields then fields[slot := Str(keep(kind, StrOrEmpty(fields[slot])))] else fields
  }

  function ChangeScrubbed(change: Value, kind: HistoryLinks, keep: Keeper): Value {
    if change.Object?
    then Object(SlotScrubbed(SlotScrubbed(change.fields, ADDED, kind, keep), REMOVED, kind, keep))
    else change
  }

  /** Whether a half still says something. */
  predicate Says(change: Value, slot: string) {
    GetStr(change, slot).Some? && GetStr(change, slot).value != []
  }

  function ScrubChanges(changes: seq<Value>, judge: Judge, keep: Keeper): seq<Value> {
    if changes == [] then []
    else
      var kind, rest := judge(FieldName(changes[0])), ScrubChanges(changes[1..], judge, keep);
      if kind.None? then [changes[0]] + rest
      else
        var c := ChangeScrubbed(changes[0], kind.value, keep);
        if Says(c, ADDED) || Says(c, REMOVED) then [c] + rest else rest
  }

  /** The changes of an entry, when it has them as a list. */
  function ChangesOf(entry: Value): Option<seq<Value>> {
    match Get(entry, "changes")
    case Some(Array(items)) => Some(items)
    case _ => None
  }

  function ScrubEntry(entry: Value, judge: Judge, keep: Keeper): Value {
    match ChangesOf(entry)
    case Some(changes) => Object(entry.fields["changes" := Array(ScrubChanges(changes, judge, keep))])
    case None => entry
  }

  function ScrubEntries(entries: seq<Value>, judge: Judge, keep: Keeper): seq<Value> {
    if entries == [] then []
    else
      var e, rest := ScrubEntry(entries[0], judge, keep), ScrubEntries(entries[1..], judge, keep);
      if ChangesOf(e) == Some([]) then rest else [e] + rest
  }

  function ScrubbedBy(history: Value, judge: Judge, keep: Keeper): Value {
    if history.Array? then Array(ScrubEntries(history.items, judge, keep)) else history
  }

  /** `scrub_history` as a function. */
  function Scrubbed(history: Value, baseUrl: string, d: set<nat>, kinds: map<string, CustomFields.CustomFieldKind>): Value {
    ScrubbedBy(history, JudgeBy(kinds), KeeperAt(LocalTo(baseUrl), d))
  }

  // ----- the scrubber's loops -----

  /** The closure `scrub_history` retains changes by: edits the change, and says whether anything is left. */
  method RetainChange(change: Value, judge: Judge, keep: Keeper) returns (edited: Value, stays: bool)
    ensures [edited] == (if stays then ScrubChanges([change], judge, keep) else [edited])
    ensures !stays ==> ScrubChanges([change], judge, keep) == []
  {
    var kind := judge(FieldName(change));
    assert [change][1..] == [];
    if kind.None? {
      return change, true;
    }
    edited := change;
    stays := false;
    if change.Object? {
      var fields := change.fields;
      var slots := [ADDED, REMOVED];
      for i := 0 to |slots|
        invariant i >= 1 ==> ADDED in slots[..i]
        invariant fields == if i == 0 then change.fields
                            else if i == 1 then SlotScrubbed(change.fields, ADDED, kind.value, keep)
                            else SlotScrubbed(SlotScrubbed(change.fields, ADDED, kind.value, keep), REMOVED, kind.value, keep)
        invariant stays == ((i >= 1 && Says(Object(fields), ADDED) && ADDED in change.fields)
                            || (i >= 2 && Says(Object(fields), REMOVED) && REMOVED in change.fields))
      {
        var slot := slots[i];
        if slot in fields {
          var kept := keep(kind.value, StrOrEmpty(fields[slot]));
          stays := stays || kept != [];
          fields := fields[slot := Str(kept)];
        }
      }
      edited := Object(fields);
    }
  }

  lemma {:induction false} ScrubChangesAppend(a: seq<Value>, b: seq<Value>, judge: Judge, keep: Keeper)
    ensures ScrubChanges(a + b, judge, keep) == ScrubChanges(a, judge, keep) + ScrubChanges(b, judge, keep)
  {
    if a == [] {
      assert a + b == b;
    } else {
      var rest := a[1..];
      ScrubChangesAppend(rest, b, judge, keep);
      assert (a + b)[1..] == rest + b && (a + b)[0] == a[0];
      var x, y := ScrubChanges(rest, judge, keep), ScrubChanges(b, judge, keep);
      var kind := judge(FieldName(a[0]));
      ConcatAssoc([if kind.None? then a[0] else ChangeScrubbed(a[0], kind.value, keep)], x, y);
    }
  }

  method RetainChanges(changes: seq<Value>, judge: Judge, keep: Keeper) returns (kept: seq<Value>)
    ensures kept == ScrubChanges(changes, judge, keep)
  {
    kept := [];
    for i := 0 to |changes|
      invariant kept == ScrubChanges(changes[..i], judge, keep)
    {
      var c := changes[i];
      var edited, stays := RetainChange(c, judge, keep);
      assert changes[..i + 1] == changes[..i] + [c];
      ScrubChangesAppend(changes[..i], [c], judge, keep);
      if stays {
        kept := kept + [edited];
      }
    }
    assert changes[..|changes|] == changes;
  }

  /** The entries with their changes edited, and not yet thinned out. */
  function EditedEntries(entries: seq<Value>, judge: Judge, keep: Keeper): (r: seq<Value>)
    ensures |r| == |entries|
  {
    if entries == [] then [] else [ScrubEntry(entries[0], judge, keep)] + EditedEntries(entries[1..], judge, keep)
  }

  /** An entry that still has a change, or never had a list of them. */
  predicate StillSays(entry: Value) {
    ChangesOf(entry) != Some([])
  }

  /** Editing every entry first and dropping the emptied ones after comes to doing both entry by entry. */
  lemma {:induction false} TwoPasses(entries: seq<Value>, judge: Judge, keep: Keeper)
    ensures ScrubEntries(entries, judge, keep) == Links.Keep(StillSays, EditedEntries(entries, judge, keep))
  {
    if entries != [] {
      var first, rest := ScrubEntry(entries[0], judge, keep), EditedEntries(entries[1..], judge, keep);
      TwoPasses(entries[1..], judge, keep);
      assert ([first] + rest)[0] == first && ([first] + rest)[1..] == rest;
    }
  }

  /** Edit the changes of one entry, where it has any. */
  method EditEntry(entry: Value, judge: Judge, keep: Keeper) returns (edited: Value)
    ensures edited == ScrubEntry(entry, judge, keep)
  {
    edited := entry;
    var changes := ChangesOf(entry);
    if changes.Some? {
      var left := RetainChanges(changes.value, judge, keep);
      edited := Object(entry.fields["changes" := Array(left)]);
    }
  }

  /** The first pass: every entry's changes are edited where they stand. */
  method EditEntries(entries: seq<Value>, judge: Judge, keep: Keeper) returns (edited: seq<Value>)
    ensures edited == EditedEntries(entries, judge, keep)
  {
    edited := [];
    for i := 0 to |entries|
      invariant edited + EditedEntries(entries[i..], judge, keep) == EditedEntries(entries, judge, keep)
    {
      var entry := EditEntry(entries[i], judge, keep);
      ghost var rest := entries[i..];
      assert rest[0] == entries[i] && rest[1..] == entries[i + 1..];
      ConcatAssoc(edited, [entry], EditedEntries(entries[i + 1..], judge, keep));
      edited := edited + [entry];
    }
  }

  /** The second pass: entries left without a change are dropped. */
  method DropEmptied(entries: seq<Value>) returns (kept: seq<Value>)
    ensures kept == Links.Keep(StillSays, entries)
  {
    kept := [];
    for i := 0 to |entries|
      invariant kept + Links.Keep(StillSays, entries[i..]) == Links.Keep(StillSays, entries)
    {
      ghost var rest := entries[i..];
      assert rest[0] == entries[i] && rest[1..] == entries[i + 1..];
      ConcatAssoc(kept, if StillSays(rest[0]) then [rest[0]] else [], Links.Keep(StillSays, rest[1..]));
      if StillSays(entries[i]) {
        kept := kept + [entries[i]];
      }
    }
  }

  /** `scrub_history`: both passes, over a history that is a list of entries. */
  method ScrubHistory(history: Value, judge: Judge, keep: Keeper) returns (out: Value)
    ensures out == ScrubbedBy(history, judge, keep)
  {
    if !history.Array? {
      return history;
    }
    var edited := EditEntries(history.items, judge, keep);
    var kept := DropEmptied(edited);
    TwoPasses(history.items, judge, keep);
    out := Array(kept);
  }

  /** `scrub_history`, for this instance and these field kinds. */
  method ScrubHistoryFor(history: Value, baseUrl: string, d: set<nat>, kinds: map<string, CustomFields.CustomFieldKind>)
      returns (out: Value)
    ensures out == Scrubbed(history, baseUrl, d, kinds)
  {
    out := ScrubHistory(history, JudgeBy(kinds), KeeperAt(LocalTo(baseUrl), d));
  }

  // ----- what a history names -----

  function SlotIds(change: Value, slot: string, kind: HistoryLinks, name: Namer): set<nat> {
    match GetStr(change, slot)
    case Some(text) => name(kind, text)
    case None => {}
  }

  /** `walk_history` over one change. */
  function ChangeIds(change: Value, judge: Judge, name: Namer): set<nat> {
    match judge(FieldName(change))
    case None => {}
    case Some(kind) => SlotIds(change, ADDED, kind, name) + SlotIds(change, REMOVED, kind, name)
  }

  function IdsOfChanges(changes: seq<Value>, judge: Judge, name: Namer): set<nat> {
    if changes == [] then {} else ChangeIds(changes[0], judge, name) + IdsOfChanges(changes[1..], judge, name)
  }

  function IdsOfEntry(entry: Value, judge: Judge, name: Namer): set<nat> {
    match ChangesOf(entry)
    case Some(changes) => IdsOfChanges(changes, judge, name)
    case None => {}
  }

  function IdsOfEntries(entries: seq<Value>, judge: Judge, name: Namer): set<nat> {
    if entries == [] then {} else IdsOfEntry(entries[0], judge, name) + IdsOfEntries(entries[1..], judge, name)
  }

  function HistoryIdsBy(history: Value, judge: Judge, name: Namer): set<nat> {
    if history.Array? then IdsOfEntries(history.items, judge, name) else {}
  }

  /** `history_bug_ids`. */
  function HistoryBugIds(history: Value, baseUrl: string, kinds: map<string, CustomFields.CustomFieldKind>): set<nat> {
    HistoryIdsBy(history, JudgeBy(kinds), NamerAt(LocalTo(baseUrl)))
  }

  // ----- laws of keeping, lifted to histories -----

  /** Keeping is faithful: within `d`, nothing out of nothing, and settled after one pass. */
  ghost predicate Sound(keep: Keeper, name: Namer, d: set<nat>) {
    && (forall kind, text :: name(kind, keep(kind, text)) <= name(kind, text) * d)
    && (forall kind, text :: keep(kind, keep(kind, text)) == keep(kind, text))
    && (forall kind :: name(kind, []) == {})
  }

  lemma SlotsAfter(change: Value, kind: HistoryLinks, keep: Keeper)
    requires change.Object?
    ensures var c := ChangeScrubbed(change, kind, keep);
      && c.Object? && c.fields.Keys == change.fields.Keys
      && (forall key :: key in change.fields && key != ADDED && key != REMOVED ==> c.fields[key] == change.fields[key])
      && (ADDED in change.fields ==> c.fields[ADDED] == Str(keep(kind, StrOrEmpty(change.fields[ADDED]))))
      && (REMOVED in change.fields ==> c.fields[REMOVED] == Str(keep(kind, StrOrEmpty(change.fields[REMOVED]))))
      && FieldName(c) == FieldName(change)
  {
    assert |ADDED| != |REMOVED| && |"field_name"| != |ADDED| && |"field_name"| != |REMOVED|;
  }

  lemma ChangeLaws(change: Value, kind: HistoryLinks, judge: Judge, keep: Keeper, name: Namer, d: set<nat>)
    requires Sound(keep, name, d) && judge(FieldName(change)) == Some(kind)
    ensures var c := ChangeScrubbed(change, kind, keep);
      && FieldName(c) == FieldName(change)
      && ChangeIds(c, judge, name) <= ChangeIds(change, judge, name) * d
      && ChangeScrubbed(c, kind, keep) == c
      && (!Says(c, ADDED) && !Says(c, REMOVED) ==> ChangeIds(c, judge, name) == {})
  {
    if change.Object? {
      var c := ChangeScrubbed(change, kind, keep);
      SlotsAfter(change, kind, keep);
      SlotsAfter(c, kind, keep);
      assert ChangeScrubbed(c, kind, keep).fields == c.fields;
    }
  }

  lemma {:induction false} ChangesLaws(changes: seq<Value>, judge: Judge, keep: Keeper, name: Namer, d: set<nat>)
    requires Sound(keep, name, d)
    ensures IdsOfChanges(ScrubChanges(changes, judge, keep), judge, name) <= IdsOfChanges(changes, judge, name) * d
    ensures ScrubChanges(ScrubChanges(changes, judge, keep), judge, keep) == ScrubChanges(changes, judge, keep)
  {
    if changes != [] {
      ChangesLaws(changes[1..], judge, keep, name, d);
      var rest := ScrubChanges(changes[1..], judge, keep);
      var kind := judge(FieldName(changes[0]));
      var c := if kind.None? then changes[0] else ChangeScrubbed(changes[0], kind.value, keep);
      if kind.Some? {
        ChangeLaws(changes[0], kind.value, judge, keep, name, d);
      }
      assert ([c] + rest)[1..] == rest;
    }
  }

  lemma EntryLaws(entry: Value, judge: Judge, keep: Keeper, name: Namer, d: set<nat>)
    requires Sound(keep, name, d)
    ensures var e := ScrubEntry(entry, judge, keep);
      IdsOfEntry(e, judge, name) <= IdsOfEntry(entry, judge, name) * d && ScrubEntry(e, judge, keep) == e
  {
    var changes := ChangesOf(entry);
    if changes.Some? {
      ChangesLaws(changes.value, judge, keep, name, d);
      var e := ScrubEntry(entry, judge, keep);
      assert ChangesOf(e) == Some(ScrubChanges(changes.value, judge, keep));
      assert ScrubEntry(e, judge, keep).fields == e.fields;
    }
  }

  lemma {:induction false} EntriesLaws(entries: seq<Value>, judge: Judge, keep: Keeper, name: Namer, d: set<nat>)
    requires Sound(keep, name, d)
    ensures IdsOfEntries(ScrubEntries(entries, judge, keep), judge, name) <= IdsOfEntries(entries, judge, name) * d
    ensures ScrubEntries(ScrubEntries(entries, judge, keep), judge, keep) == ScrubEntries(entries, judge, keep)
  {
    if entries != [] {
      EntriesLaws(entries[1..], judge, keep, name, d);
      EntryLaws(entries[0], judge, keep, name, d);
      var e, rest := ScrubEntry(entries[0], judge, keep), ScrubEntries(entries[1..], judge, keep);
      assert ([e] + rest)[1..] == rest;
    }
  }

  lemma HistoryKeeperIsSound(l: Local, d: set<nat>)
    requires Quiet(l)
    ensures Sound(KeeperAt(l, d), NamerAt(l), d)
  {
    forall kind, text
      ensures IdsIn(kind, KeepIn(kind, text, l, d), l) <= IdsIn(kind, text, l) * d
      ensures KeepIn(kind, KeepIn(kind, text, l, d), l, d) == KeepIn(kind, text, l, d)
    {
      KeptIdsExact(kind, text, l, d);
      KeptTwice(kind, text, l, d, d);
      assert d * d == d;
    }
    forall kind
      ensures IdsIn(kind, [], l) == {}
    {
      NothingInNothing(kind, l);
    }
  }

  /** A scrubbed history names only bugs that may be named, none it did not name before, and stays put under a second scrub. */
  lemma ScrubIsSound(history: Value, baseUrl: string, d: set<nat>, kinds: map<string, CustomFields.CustomFieldKind>)
    ensures HistoryBugIds(Scrubbed(history, baseUrl, d, kinds), baseUrl, kinds) <= HistoryBugIds(history, baseUrl, kinds) * d
    ensures Scrubbed(Scrubbed(history, baseUrl, d, kinds), baseUrl, d, kinds) == Scrubbed(history, baseUrl, d, kinds)
  {
    var l := LocalTo(baseUrl);
    LocalIsQuiet(baseUrl);
    HistoryKeeperIsSound(l, d);
    if history.Array? {
      EntriesLaws(history.items, JudgeBy(kinds), KeeperAt(l, d), NamerAt(l), d);
    }
  }

  // ----- nothing is lost that may be named -----

  /** No URL text is partly hidden: each names only bugs within `d`, or only bugs outside it. */
  ghost predicate Whole(change: Value, judge: Judge, name: Namer, d: set<nat>) {
    judge(FieldName(change)) == Some(UrlScalar) ==>
      && (SlotIds(change, ADDED, UrlScalar, name) <= d || SlotIds(change, ADDED, UrlScalar, name) !! d)
      && (SlotIds(change, REMOVED, UrlScalar, name) <= d || SlotIds(change, REMOVED, UrlScalar, name) !! d)
  }

  /** Keeping loses no id that may be named, save in a text that is all or nothing. */
  ghost predicate Lossless(keep: Keeper, name: Namer, d: set<nat>) {
    && (forall kind, text :: kind != UrlScalar || name(kind, text) <= d || name(kind, text) !! d ==>
          name(kind, keep(kind, text)) == name(kind, text) * d)
    && (forall kind :: name(kind, []) == {})
  }

  lemma ChangeLossless(change: Value, kind: HistoryLinks, judge: Judge, keep: Keeper, name: Namer, d: set<nat>)
    requires Lossless(keep, name, d) && judge(FieldName(change)) == Some(kind) && Whole(change, judge, name, d)
    ensures var c := ChangeScrubbed(change, kind, keep);
      && ChangeIds(c, judge, name) == ChangeIds(change, judge, name) * d
      && (!Says(c, ADDED) && !Says(c, REMOVED) ==> ChangeIds(c, judge, name) == {})
  {
    if change.Object? {
      SlotsAfter(change, kind, keep);
    }
  }

  lemma {:induction false} ChangesLossless(changes: seq<Value>, judge: Judge, keep: Keeper, name: Namer, d: set<nat>)
    requires Lossless(keep, name, d) && forall i :: 0 <= i < |changes| ==> Whole(changes[i], judge, name, d)
    ensures IdsOfChanges(ScrubChanges(changes, judge, keep), judge, name) == IdsOfChanges(changes, judge, name) * d
  {
    if changes != [] {
      var first, tail := changes[0], changes[1..];
      ChangesLossless(tail, judge, keep, name, d);
      FirstLossless(first, tail, changes, judge, keep, name, d);
    }
  }

  lemma FirstLossless(first: Value, tail: seq<Value>, changes: seq<Value>, judge: Judge, keep: Keeper, name: Namer, d: set<nat>)
    requires Lossless(keep, name, d) && Whole(first, judge, name, d) && changes == [first] + tail
    requires IdsOfChanges(ScrubChanges(tail, judge, keep), judge, name) == IdsOfChanges(tail, judge, name) * d
    ensures IdsOfChanges(ScrubChanges(changes, judge, keep), judge, name) == IdsOfChanges(changes, judge, name) * d
  {
    var rest, kind := ScrubChanges(tail, judge, keep), judge(FieldName(first));
    var c := if kind.None? then first else ChangeScrubbed(first, kind.value, keep);
    if kind.Some? {
      ChangeLossless(first, kind.value, judge, keep, name, d);
    }
    assert changes[1..] == tail && ([c] + rest)[1..] == rest;
    assert ChangeIds(c, judge, name) == ChangeIds(first, judge, name) * d;
    assert IdsOfChanges([c] + rest, judge, name) == ChangeIds(c, judge, name) + IdsOfChanges(rest, judge, name);
  }

  ghost predicate WholeEntry(entry: Value, judge: Judge, name: Namer, d: set<nat>) {
    ChangesOf(entry).Some? ==> forall i :: 0 <= i < |ChangesOf(entry).value| ==> Whole(ChangesOf(entry).value[i], judge, name, d)
  }

  lemma EntryLossless(entry: Value, judge: Judge, keep: Keeper, name: Namer, d: set<nat>)
    requires Lossless(keep, name, d) && WholeEntry(entry, judge, name, d)
    ensures IdsOfEntry(ScrubEntry(entry, judge, keep), judge, name) == IdsOfEntry(entry, judge, name) * d
  {
    if ChangesOf(entry).Some? {
      ChangesLossless(ChangesOf(entry).value, judge, keep, name, d);
      assert ChangesOf(ScrubEntry(entry, judge, keep)) == Some(ScrubChanges(ChangesOf(entry).value, judge, keep));
    }
  }

  lemma {:induction false} EntriesLossless(entries: seq<Value>, judge: Judge, keep: Keeper, name: Namer, d: set<nat>)
    requires Lossless(keep, name, d) && forall i :: 0 <= i < |entries| ==> WholeEntry(entries[i], judge, name, d)
    ensures IdsOfEntries(ScrubEntries(entries, judge, keep), judge, name) == IdsOfEntries(entries, judge, name) * d
  {
    if entries != [] {
      var first, tail := entries[0], entries[1..];
      EntriesLossless(tail, judge, keep, name, d);
      EntryLossless(first, judge, keep, name, d);
      FirstEntry(first, tail, judge, keep, name);
      assert entries == [first] + tail;
    }
  }

  /** An entry dropped for want of changes named nothing, so dropping it loses nothing. */
  lemma FirstEntry(first: Value, tail: seq<Value>, judge: Judge, keep: Keeper, name: Namer)
    ensures var e := ScrubEntry(first, judge, keep);
      && IdsOfEntries(ScrubEntries([first] + tail, judge, keep), judge, name)
         == IdsOfEntry(e, judge, name) + IdsOfEntries(ScrubEntries(tail, judge, keep), judge, name)
      && IdsOfEntries([first] + tail, judge, name) == IdsOfEntry(first, judge, name) + IdsOfEntries(tail, judge, name)
  {
    var e, rest := ScrubEntry(first, judge, keep), ScrubEntries(tail, judge, keep);
    assert ([first] + tail)[1..] == tail && ([e] + rest)[1..] == rest;
  }

  /** With no URL text partly hidden, a scrub removes exactly the ids outside `d`. */
  lemma ScrubIsExact(history: Value, baseUrl: string, d: set<nat>, kinds: map<string, CustomFields.CustomFieldKind>)
    requires history.Array? ==>
      forall i :: 0 <= i < |history.items| ==> WholeEntry(history.items[i], JudgeBy(kinds), NamerAt(LocalTo(baseUrl)), d)
    ensures HistoryBugIds(Scrubbed(history, baseUrl, d, kinds), baseUrl, kinds) == HistoryBugIds(history, baseUrl, kinds) * d
  {
    var l := LocalTo(baseUrl);
    LocalIsQuiet(baseUrl);
    HistoryKeeperIsLossless(l, d);
    if history.Array? {
      EntriesLossless(history.items, JudgeBy(kinds), KeeperAt(l, d), NamerAt(l), d);
    }
  }

  lemma HistoryKeeperIsLossless(l: Local, d: set<nat>)
    requires Quiet(l)
    ensures Lossless(KeeperAt(l, d), NamerAt(l), d)
  {
    forall kind, text
      ensures kind != UrlScalar || IdsIn(kind, text, l) <= d || IdsIn(kind, text, l) !! d ==>
                IdsIn(kind, KeepIn(kind, text, l, d), l) == IdsIn(kind, text, l) * d
    {
      KeptIdsExact(kind, text, l, d);
    }
    forall kind
      ensures IdsIn(kind, [], l) == {}
    {
      NothingInNothing(kind, l);
    }
  }

  // ----- update responses -----

  /** The id of an update entry. */
  predicate IdWithin(bug: Value, d: set<nat>) {
    Links.Among(GetU64(bug, "id"), d)
  }

  /** What is kept of one change in an update: the two halves, and nothing else. */
  function UpdateHalves(change: Value, kind: HistoryLinks, keep: Keeper): map<string, Value> {
    map slot | slot in {ADDED, REMOVED} && Get(change, slot).Some?
      :: Str(keep(kind, StrOrEmpty(Get(change, slot).value)))
  }

  predicate HalfSays(halves: map<string, Value>) {
    exists slot :: slot in halves && halves[slot] != Str([])
  }

  function UpdateChanges(changes: map<string, Value>, judge: Judge, keep: Keeper): map<string, Value> {
    map field | field in changes
        && (judge(field).None? || HalfSays(UpdateHalves(changes[field], judge(field).value, keep)))
      :: match judge(field)
         case None => changes[field]
         case Some(kind) => Object(UpdateHalves(changes[field], kind, keep))
  }

  function UpdateBug(bug: Value, judge: Judge, keep: Keeper): Value {
    match Get(bug, "changes")
    case None => bug
    case Some(Object(changes)) => Object(bug.fields["changes" := Object(UpdateChanges(changes, judge, keep))])
    case Some(_) => Object(bug.fields - {"changes"})
  }

  function UpdateBugs(bugs: seq<Value>, d: set<nat>, judge: Judge, keep: Keeper): seq<Value> {
    if bugs == [] then []
    else (if IdWithin(bugs[0], d) then [UpdateBug(bugs[0], judge, keep)] else []) + UpdateBugs(bugs[1..], d, judge, keep)
  }

  function UpdateScrubbed(result: Value, d: set<nat>, judge: Judge, keep: Keeper): Value {
    match Get(result, "bugs")
    case None => result
    case Some(Array(bugs)) => Object(result.fields["bugs" := Array(UpdateBugs(bugs, d, judge, keep))])
    case Some(_) => Object(result.fields - {"bugs"})
  }

  /** A `Bug.update` response, edited in place. */
  class UpdateResponse {
    var result: Value

    constructor (v: Value)
      ensures result == v
    {
      result := v;
    }

    /** `scrub_update_changes`. */
    method ScrubUpdateChanges(baseUrl: string, d: set<nat>, kinds: map<string, CustomFields.CustomFieldKind>)
      modifies this
      ensures result == UpdateScrubbed(old(result), d, JudgeBy(kinds), UpdateKeeperAt(LocalTo(baseUrl), d))
    {
      var judge, keep := JudgeBy(kinds), UpdateKeeperAt(LocalTo(baseUrl), d);
      match Get(result, "bugs") {
        case None =>
        case Some(Array(bugs)) =>
          var kept := Links.Keep(Within(d), bugs);
          var edited := EditBugs(kept, judge, keep);
          UpdateBugsInTwoPasses(bugs, d, judge, keep);
          result := Object(result.fields["bugs" := Array(edited)]);
        case Some(_) =>
          result := Object(result.fields - {"bugs"});
      }
    }
  }

  function Within(d: set<nat>): Value -> bool {
    (bug: Value) => IdWithin(bug, d)
  }

  function EditEach(bugs: seq<Value>, judge: Judge, keep: Keeper): seq<Value> {
    if bugs == [] then [] else [UpdateBug(bugs[0], judge, keep)] + EditEach(bugs[1..], judge, keep)
  }

  lemma {:induction false} UpdateBugsInTwoPasses(bugs: seq<Value>, d: set<nat>, judge: Judge, keep: Keeper)
    ensures UpdateBugs(bugs, d, judge, keep) == EditEach(Links.Keep(Within(d), bugs), judge, keep)
  {
    if bugs != [] {
      var first, rest := bugs[0], Links.Keep(Within(d), bugs[1..]);
      UpdateBugsInTwoPasses(bugs[1..], d, judge, keep);
      if IdWithin(first, d) {
        assert Links.Keep(Within(d), bugs) == [first] + rest && ([first] + rest)[1..] == rest;
      } else {
        assert Links.Keep(Within(d), bugs) == rest;
        assert [] + EditEach(rest, judge, keep) == EditEach(rest, judge, keep);
      }
    }
  }

  method EditBugs(bugs: seq<Value>, judge: Judge, keep: Keeper) returns (edited: seq<Value>)
    ensures edited == EditEach(bugs, judge, keep)
  {
    edited := [];
    for i := 0 to |bugs|
      invariant edited + EditEach(bugs[i..], judge, keep) == EditEach(bugs, judge, keep)
    {
      var bug := EditBug(bugs[i], judge, keep);
      assert bugs[i..][1..] == bugs[i + 1..];
      edited := edited + [bug];
    }
  }

  method EditBug(bug: Value, judge: Judge, keep: Keeper) returns (edited: Value)
    ensures edited == UpdateBug(bug, judge, keep)
  {
    edited := bug;
    match Get(bug, "changes") {
      case None =>
      case Some(Object(changes)) =>
        var kept := RetainFields(changes, judge, keep);
        edited := Object(bug.fields["changes" := Object(kept)]);
      case Some(_) =>
        edited := Object(bug.fields - {"changes"});
    }
  }

  /** The closure the changes of one updated bug are retained by, over all its fields. */
  method RetainFields(changes: map<string, Value>, judge: Judge, keep: Keeper) returns (kept: map<string, Value>)
    ensures kept == UpdateChanges(changes, judge, keep)
  {
    kept := map[];
    ghost var all := UpdateChanges(changes, judge, keep);
    var todo := changes.Keys;
    while todo != {}
      invariant todo <= changes.Keys
      invariant kept == map field | field in all && field !in todo :: all[field]
      decreases todo
    {
      var field :| field in todo;
      todo := todo - {field};
      var kind := judge(field);
      if kind.None? {
        kept := kept[field := changes[field]];
      } else {
        var halves := UpdateHalves(changes[field], kind.value, keep);
        if HalfSays(halves) {
          kept := kept[field := Object(halves)];
        }
      }
    }
  }

  /** Nothing a scrubbed update still shows names a bug outside `d`, however an unknown field is read. */
  ghost predicate ShowsOnly(bug: Value, d: set<nat>, judge: Judge, name: Namer) {
    && IdWithin(bug, d)
    && (Get(bug, "changes").Some? ==> Get(bug, "changes").value.Object?)
    && (Get(bug, "changes").Some? ==>
          forall field :: field in Get(bug, "changes").value.fields && judge(field).Some? ==>
            forall slot :: Get(Get(bug, "changes").value.fields[field], slot).Some? ==>
              var half := Get(Get(bug, "changes").value.fields[field], slot).value;
              half.Str? && forall id :: id in name(judge(field).value, half.s) && id != 0 ==> id in d)
  }

  lemma UpdateBugShowsOnly(bug: Value, d: set<nat>, judge: Judge, keep: Keeper, name: Namer)
    requires IdWithin(bug, d)
    requires forall kind, text, id :: id in name(kind, keep(kind, text)) && id != 0 ==> id in d
    ensures ShowsOnly(UpdateBug(bug, judge, keep), d, judge, name)
  {
    assert |"changes"| != |"id"|;
    assert bug.Object?;
    var after := UpdateBug(bug, judge, keep);
    assert Get(after, "id") == Get(bug, "id");
  }

  lemma {:induction false} UpdateBugsShowOnly(bugs: seq<Value>, d: set<nat>, judge: Judge, keep: Keeper, name: Namer)
    requires forall kind, text, id :: id in name(kind, keep(kind, text)) && id != 0 ==> id in d
    ensures forall bug :: bug in UpdateBugs(bugs, d, judge, keep) ==> ShowsOnly(bug, d, judge, name)
  {
    if bugs != [] {
      UpdateBugsShowOnly(bugs[1..], d, judge, keep, name);
      if IdWithin(bugs[0], d) {
        UpdateBugShowsOnly(bugs[0], d, judge, keep, name);
      }
    }
  }

  /** The entries a scrubbed update keeps are about, and name, bugs of the set alone. */
  lemma UpdateScrubIsSound(result: Value, baseUrl: string, d: set<nat>, kinds: map<string, CustomFields.CustomFieldKind>)
    ensures var judge, l := JudgeBy(kinds), LocalTo(baseUrl);
      var after := UpdateScrubbed(result, d, judge, UpdateKeeperAt(l, d));
      Get(after, "bugs").Some? ==>
        Get(after, "bugs").value.Array?
        && forall bug :: bug in Get(after, "bugs").value.items ==> ShowsOnly(bug, d, judge, UpdateNamerAt(l))
  {
    var judge, l := JudgeBy(kinds), LocalTo(baseUrl);
    var keep, name := UpdateKeeperAt(l, d), UpdateNamerAt(l);
    LocalIsQuiet(baseUrl);
    forall kind, text, id | id in name(kind, keep(kind, text)) && id != 0
      ensures id in d
    {
      UpdateKeepsWithin(kind, text, l, d);
    }
    var bugs := Get(result, "bugs");
    if bugs.Some? && bugs.value.Array? {
      UpdateBugsShowOnly(bugs.value.items, d, judge, keep, name);
    }
  }
}
