/** Reading classification metadata off a Bugzilla bug object: policy.rs, `BugMeta::from_json`. */
module BugJson {
  import opened Prelude
  import opened Json
  import opened Policy
  import PolicyLaws

  /** One element of a list of names: a string, or an object carrying a string `name`. */
  function NameIn(item: Value): Option<string> {
    match item
    case Str(s) => Some(s)
    case Object(_) => GetStr(item, "name")
    case _ => None
  }

  /** The names of a list, or nothing at all when one element cannot be read. */
  function NamesIn(items: seq<Value>): Option<seq<string>> {
    if items == [] then Some([])
    else match (NameIn(items[0]), NamesIn(items[1..]))
      case (Some(n), Some(rest)) => Some([n] + rest)
      case _ => None
  }

  function ListOf(got: Option<Value>): Option<seq<string>> {
    match got
    case Some(Str(s)) => Some([s])
    case Some(Array(items)) => NamesIn(items)
    case _ => None
  }

  function StrOf(got: Option<Value>): Option<string> {
    if got.Some? && got.value.Str? then Some(got.value.s) else None
  }

  /** `whiteboard_field`: `whiteboard` when it carries text, else the legacy key, unless either is unreadable. */
  function Whiteboard(v: Value): Option<string> {
    var wb, legacy := GetStr(v, "whiteboard"), GetStr(v, "status_whiteboard");
    var wbPresent, legacyPresent := Get(v, "whiteboard").Some?, Get(v, "status_whiteboard").Some?;
    match (wb, legacy)
    case (Some(t), Some(l)) => if t != [] then wb else if l == [] then wb else legacy
    case (Some(t), None) => if t != [] || !legacyPresent then wb else None
    case (None, Some(_)) => if !wbPresent then legacy else None
    case (None, None) => None
  }

  function CreatedByMe(w: World, caller: Option<string>, creator: Option<string>): Option<bool> {
    match (caller, creator)
    case (Some(login), Some(author)) => Some(w.lower(login) == w.lower(author))
    case _ => None
  }

  function TimeOf(w: World, got: Option<Value>): Option<Time> {
    if got.Some? && got.value.Str? then w.parseTime(got.value.s) else None
  }

  function FromJson(v: Value, caller: Option<string>, w: World): BugMeta {
    BugMeta(
      GetStr(v, "summary"),
      GetStr(v, "product"),
      ListOf(Get(v, "component")),
      GetStr(v, "status"),
      GetStr(v, "severity"),
      GetStr(v, "priority"),
      ListOf(Get(v, "keywords")),
      ListOf(Get(v, "groups")),
      Whiteboard(v),
      TimeOf(w, Get(v, "creation_time")),
      CreatedByMe(w, caller, GetStr(v, "creator")))
  }

  // ----- what the server sends is what is read -----

  /** One name, bare or in an object that carries it. */
  predicate Named(item: Value, name: string) {
    item == Str(name) || (item.Object? && Get(item, "name") == Some(Str(name)))
  }

  /** Names as Bugzilla sends them: one alone, or a list of them. */
  ghost predicate SendsNames(got: Option<Value>, names: seq<string>) {
    || (|names| == 1 && got == Some(Str(names[0])))
    || (got.Some? && got.value.Array? && |got.value.items| == |names|
        && forall i :: 0 <= i < |names| ==> Named(got.value.items[i], names[i]))
  }

  lemma {:induction false} NamesInOrder(items: seq<Value>, names: seq<string>)
    requires |items| == |names| && forall i :: 0 <= i < |names| ==> Named(items[i], names[i])
    ensures NamesIn(items) == Some(names)
  {
    if items != [] {
      NamesInOrder(items[1..], names[1..]);
      assert Named(items[0], names[0]);
      assert [names[0]] + names[1..] == names;
    }
  }

  lemma SentNamesAreRead(got: Option<Value>, names: seq<string>)
    requires SendsNames(got, names)
    ensures ListOf(got) == Some(names)
  {
    if got.value.Array? {
      NamesInOrder(got.value.items, names);
    } else {
      assert names == [names[0]];
    }
  }

  /** A list of names is read as nothing else than what was sent. */
  lemma {:induction false} ReadNamesWereSent(items: seq<Value>, names: seq<string>)
    requires NamesIn(items) == Some(names)
    ensures |items| == |names| && forall i :: 0 <= i < |names| ==> Named(items[i], names[i])
  {
    if items != [] {
      ReadNamesWereSent(items[1..], names[1..]);
    }
  }

  lemma NamesExactly(got: Option<Value>, names: seq<string>)
    ensures ListOf(got) == Some(names) <==> SendsNames(got, names)
  {
    if SendsNames(got, names) {
      SentNamesAreRead(got, names);
    }
    if ListOf(got) == Some(names) && got.value.Array? {
      ReadNamesWereSent(got.value.items, names);
    }
  }

  /** The whiteboard as sent: under its key, else under the legacy one, unless a key is there that cannot be read. */
  predicate SendsWhiteboard(v: Value, text: string) {
    var wb, legacy := Get(v, "whiteboard"), Get(v, "status_whiteboard");
    || (wb == Some(Str(text)) && text != "")
    || ((wb == Some(Str("")) || wb == None) && legacy == Some(Str(text)))
    || (wb == Some(Str("")) && legacy == None && text == "")
  }

  lemma WhiteboardExactly(v: Value, text: string)
    ensures Whiteboard(v) == Some(text) <==> SendsWhiteboard(v, text)
  {
  }

  /** A bug object as Bugzilla sends it, each field under its own key. */
  ghost predicate Sends(v: Value, b: BugMeta, created: string, creator: string)
    requires PolicyLaws.Complete(b)
  {
    && Get(v, "summary") == Some(Str(b.summary.value)) && Get(v, "product") == Some(Str(b.product.value))
    && Get(v, "status") == Some(Str(b.status.value)) && Get(v, "severity") == Some(Str(b.severity.value))
    && Get(v, "priority") == Some(Str(b.priority.value)) && Get(v, "creator") == Some(Str(creator))
    && SendsNames(Get(v, "component"), b.components.value)
    && SendsNames(Get(v, "keywords"), b.keywords.value)
    && SendsNames(Get(v, "groups"), b.groups.value)
    && SendsWhiteboard(v, b.whiteboard.value)
    && Get(v, "creation_time") == Some(Str(created))
  }

  /** Nothing a bug object says in full is lost or mixed up on the way to the rules. */
  lemma SentIsRead(v: Value, b: BugMeta, created: string, creator: string, login: string, w: World)
    requires PolicyLaws.Complete(b) && Sends(v, b, created, creator)
    requires w.parseTime(created) == b.creationTime
    requires b.createdByMe.value <==> w.lower(login) == w.lower(creator)
    ensures FromJson(v, Some(login), w) == b
  {
    SentNamesAreRead(Get(v, "component"), b.components.value);
    SentNamesAreRead(Get(v, "keywords"), b.keywords.value);
    SentNamesAreRead(Get(v, "groups"), b.groups.value);
    WhiteboardExactly(v, b.whiteboard.value);
  }

  // ----- what an unreadable value does -----

  const TEXT_KEYS := {"summary", "product", "status", "severity", "priority", "whiteboard", "status_whiteboard", "creator"}
  const LIST_KEYS := {"component", "keywords", "groups"}

  const WHITEBOARD_KEYS := {"whiteboard", "status_whiteboard"}

  /** Unchanged, or with no string to be read any more. */
  predicate TextGarbled(got: Option<Value>, got': Option<Value>) {
    got' == got || StrOf(got').None?
  }

  predicate ListGarbled(got: Option<Value>, got': Option<Value>) {
    got' == got || ListOf(got').None?
  }

  predicate TimeGarbled(w: World, got: Option<Value>, got': Option<Value>) {
    got' == got || TimeOf(w, got').None?
  }

  /**
   * `v'` is `v` with any number of values replaced by unreadable ones or taken
   * away with their keys, but for the two whiteboard keys, which may only be made
   * unreadable; keys read by nobody may change freely.
   */
  ghost predicate Garbled(w: World, v: Value, v': Value) {
    && (forall key :: key in TEXT_KEYS ==> TextGarbled(Get(v, key), Get(v', key)))
    && (forall key :: key in WHITEBOARD_KEYS && Get(v', key).None? ==> Get(v, key).None?)
    && (forall key :: key in LIST_KEYS ==> ListGarbled(Get(v, key), Get(v', key)))
    && TimeGarbled(w, Get(v, "creation_time"), Get(v', "creation_time"))
  }

  lemma GarbledKnowsLess(w: World, v: Value, v': Value, caller: Option<string>)
    requires Garbled(w, v, v')
    ensures PolicyLaws.Completes(FromJson(v', caller, w), FromJson(v, caller, w))
  {
    GarbledTexts(w, v, v');
    GarbledLists(w, v, v');
  }

  lemma GarbledTexts(w: World, v: Value, v': Value)
    requires Garbled(w, v, v')
    ensures forall key :: key in TEXT_KEYS ==> PolicyLaws.Agrees(GetStr(v', key), GetStr(v, key))
    ensures PolicyLaws.Agrees(Whiteboard(v'), Whiteboard(v))
  {
    assert TextGarbled(Get(v, "whiteboard"), Get(v', "whiteboard"));
    assert TextGarbled(Get(v, "status_whiteboard"), Get(v', "status_whiteboard"));
    assert "whiteboard" in WHITEBOARD_KEYS && "status_whiteboard" in WHITEBOARD_KEYS;
  }

  lemma GarbledLists(w: World, v: Value, v': Value)
    requires Garbled(w, v, v')
    ensures forall key :: key in LIST_KEYS ==> PolicyLaws.Agrees(ListOf(Get(v', key)), ListOf(Get(v, key)))
  {
  }

  /** Garbling a bug object, or losing keys of it, on its way to the guard never adds a capability. */
  lemma GarblingNeverAddsACapability(
      p: Policy, w: World, v: Value, v': Value, caller: Option<string>, now: Time, op: Operation, cap: Capability)
    requires Garbled(w, v, v')
    ensures Allows(Classify(p, FromJson(v', caller, w), now, op, w), cap)
        ==> Allows(Classify(p, FromJson(v, caller, w), now, op, w), cap)
  {
    GarbledKnowsLess(w, v, v', caller);
    PolicyLaws.UnknownNeverBuysAccess(p, FromJson(v', caller, w), FromJson(v, caller, w), now, op, w, cap);
  }

  /** An unresolved caller learns no more than a resolved one would. */
  lemma UnresolvedCallerNeverGains(p: Policy, w: World, v: Value, login: string, now: Time, op: Operation, cap: Capability)
    ensures Allows(Classify(p, FromJson(v, None, w), now, op, w), cap)
        ==> Allows(Classify(p, FromJson(v, Some(login), w), now, op, w), cap)
  {
    PolicyLaws.UnknownNeverBuysAccess(p, FromJson(v, None, w), FromJson(v, Some(login), w), now, op, w, cap);
  }

  /** A list is read in full or not at all, so no name is ever silently missing from it. */
  lemma {:induction false} ListReadInFull(items: seq<Value>)
    ensures NamesIn(items).Some? <==> forall i :: 0 <= i < |items| ==> NameIn(items[i]).Some?
    ensures NamesIn(items).Some? ==>
              |NamesIn(items).value| == |items|
              && forall i :: 0 <= i < |items| ==> NameIn(items[i]) == Some(NamesIn(items).value[i])
  {
    if items != [] {
      ListReadInFull(items[1..]);
      if NamesIn(items[1..]).Some? {
        assert forall i :: 0 < i < |items| ==> items[i] == items[1..][i - 1];
      } else {
        var j :| 0 <= j < |items[1..]| && NameIn(items[1..][j]).None?;
        assert NameIn(items[j + 1]).None?;
      }
    }
  }

  /** `v` without one of its keys. */
  function Without(v: Value, key: string): Value {
    if v.Object? then Object(v.fields - {key}) else v
  }

  /**
   * What garbling cannot do, taking a key away can. Without `whiteboard`, what
   * is read still holds of the bug exactly unless a legacy text now speaks for
   * a `whiteboard` that was unreadable, or said something else.
   */
  lemma DroppingWhiteboardIsSafeIff(v: Value)
    ensures var wb, legacy := Get(v, "whiteboard"), GetStr(v, "status_whiteboard");
      var safe := PolicyLaws.Agrees(Whiteboard(Without(v, "whiteboard")), Whiteboard(v));
      safe <==> legacy.None? || wb.None? || StrOf(wb) == Some([]) || StrOf(wb) == legacy
  {
    assert "status_whiteboard" != "whiteboard";
    assert Get(Without(v, "whiteboard"), "status_whiteboard") == Get(v, "status_whiteboard");
  }

  /** Without the legacy key: exactly unless `whiteboard` was empty and the legacy key had more to say. */
  lemma DroppingLegacyIsSafeIff(v: Value)
    ensures var wb, legacy := GetStr(v, "whiteboard"), Get(v, "status_whiteboard");
      var safe := PolicyLaws.Agrees(Whiteboard(Without(v, "status_whiteboard")), Whiteboard(v));
      safe <==> wb != Some([]) || legacy.None? || StrOf(legacy) == Some([])
  {
    assert "status_whiteboard" != "whiteboard";
    assert Get(Without(v, "status_whiteboard"), "whiteboard") == Get(v, "whiteboard");
  }

  /** Such a bug: a marker that is no longer seen once its key is dropped. */
  lemma DroppingAWhiteboardKeyCanMislead()
    ensures var v := Object(map["whiteboard" := Str("embargo"), "status_whiteboard" := Str("ok")]);
      Whiteboard(v) == Some("embargo") && Whiteboard(Without(v, "whiteboard")) == Some("ok")
  {
    assert "status_whiteboard" != "whiteboard";
  }
}
