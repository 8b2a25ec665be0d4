/**
 * Links to other bugs inside a bug object: crates/bugwarden-core/src/guard.rs,
 * `linked_bug_ids`, `see_also_local_id`, `scrub_bug_links`.
 */
module Links {
  import opened Prelude
  import opened Text
  import opened Json

  // ----- URLs that point at this instance -----

  /** Scheme off, host lowercased. */
  function StripScheme(u: string): string {
    AsciiLower(TrimPrefixes(TrimPrefixes(Trim(White, u), "https://"), "http://"))
  }

  predicate Slash(c: char) { c == '/' }

  /** The host and path every local URL starts with. */
  function BaseOf(baseUrl: string): string {
    TrimEnd(Slash, StripScheme(baseUrl))
  }

  /** What follows `/show_bug.cgi?id=` or `/rest/bug/` right after the base. */
  function IdText(rest: string): Option<string> {
    var query := StripPrefix(rest, "/show_bug.cgi?id=");
    if query.Some? then query else StripPrefix(rest, "/rest/bug/")
  }

  /** `see_also_local_id`. */
  function SeeAlsoId(entry: string, baseUrl: string): Option<nat> {
    match StripPrefix(StripScheme(entry), BaseOf(baseUrl))
    case None => None
    case Some(rest) =>
      match IdText(rest)
      case None => None
      case Some(text) => DigitsU64(LeadingDigits(text))
  }

  /** The id a JSON value names as a `see_also` entry. */
  function EntryId(v: Value, baseUrl: string): Option<nat> {
    if v.Str? then SeeAlsoId(v.s, baseUrl) else None
  }

  /** A reader of such entries, whatever instance it is for. */
  type Reader = Value -> Option<nat>

  function EntryReader(baseUrl: string): Reader {
    (v: Value) => EntryId(v, baseUrl)
  }

  // ----- which fields carry links -----

  const LINKED_ID_FIELDS: seq<string> :=
    ["blocks", "depends_on", "dependson", "duplicates", "regressed_by", "regressions", "blocked"]

  datatype FieldKind = IdList | IdScalar | UrlField | SeeAlso | Custom | Plain

  function KindOf(key: string): FieldKind {
    if key in LINKED_ID_FIELDS then IdList
    else if key == "dupe_of" || key == "dup_id" then IdScalar
    else if key == "url" then UrlField
    else if key == "see_also" then SeeAlso
    else if "cf_" <= key then Custom
    else Plain
  }

  function OneId(id: Option<nat>): set<nat> {
    if id.Some? then {id.value} else {}
  }

  function NumberIds(items: seq<Value>): set<nat> {
    set v | v in items && AsU64(v).Some? :: AsU64(v).value
  }

  function EntryIds(items: seq<Value>, read: Reader): set<nat> {
    set v | v in items && v.Str? && read(v).Some? :: read(v).value
  }

  /** The bugs one field points at. */
  function IdsIn(kind: FieldKind, v: Value, read: Reader): set<nat> {
    match kind
    case IdList => if v.Array? then NumberIds(v.items) else OneId(AsU64(v))
    case IdScalar => OneId(AsU64(v))
    case UrlField => if v.Str? then OneId(read(v)) else {}
    case SeeAlso => if v.Array? then EntryIds(v.items, read) else {}
    case Custom => if v.Array? then NumberIds(v.items) else OneId(AsU64(v))
    case Plain => {}
  }

  /** Which family a key belongs to. */
  type Families = string -> FieldKind

  function LinkedIdsBy(kind: Families, bug: Value, read: Reader): set<nat> {
    if bug.Object?
    then set key, id | key in bug.fields && id in IdsIn(kind(key), bug.fields[key], read) :: id
    else {}
  }

  /** `linked_bug_ids`. */
  function LinkedBugIds(bug: Value, baseUrl: string): set<nat> {
    LinkedIdsBy(KindOf, bug, EntryReader(baseUrl))
  }

  // ----- scrubbing -----

  /** `Vec::retain`. */
  function Keep<T>(p: T -> bool, s: seq<T>): seq<T> {
    if s == [] then []
    else (if p(s[0]) then [s[0]] else []) + Keep(p, s[1..])
  }

  predicate Among(id: Option<nat>, d: set<nat>) {
    id.Some? && id.value in d
  }

  function NamesOnly(d: set<nat>): Value -> bool {
    (v: Value) => Among(AsU64(v), d)
  }

  function EntriesWithin(read: Reader, d: set<nat>): Value -> bool {
    (v: Value) => v.Str? && (read(v).None? || read(v).value in d)
  }

  function NumbersWithin(d: set<nat>): Value -> bool {
    (v: Value) => !v.Number? || Among(AsU64(v), d)
  }

  /** What is left of one field once links outside `d` are gone. */
  function ScrubField(kind: FieldKind, v: Value, read: Reader, d: set<nat>): Value {
    match kind
    case IdList =>
      if v.Array? then Array(Keep(NamesOnly(d), v.items)) else if Among(AsU64(v), d) then v else Null
    case IdScalar => if Among(AsU64(v), d) then v else Null
    case UrlField => if v.Str? && read(v).Some? && read(v).value !in d then Null else v
    case SeeAlso => if v.Array? then Array(Keep(EntriesWithin(read, d), v.items)) else v
    case Custom =>
      if v.Array? then Array(Keep(NumbersWithin(d), v.items))
      else if v.Number? && !Among(AsU64(v), d) then Null else v
    case Plain => v
  }

  function ScrubbedFields(kind: Families, fields: map<string, Value>, read: Reader, d: set<nat>): map<string, Value> {
    map key | key in fields :: ScrubField(kind(key), fields[key], read, d)
  }

  function ScrubbedBy(kind: Families, bug: Value, read: Reader, d: set<nat>): Value {
    if bug.Object? then Object(ScrubbedFields(kind, bug.fields, read, d)) else bug
  }

  /** The whole bug object, field by field. */
  function Scrubbed(bug: Value, baseUrl: string, d: set<nat>): Value {
    ScrubbedBy(KindOf, bug, EntryReader(baseUrl), d)
  }

  /** A JSON value edited in place. */
  class Document {
    var value: Value

    constructor (v: Value)
      ensures value == v
    {
      value := v;
    }

    /** `scrub_bug_links`. */
    method ScrubBugLinks(baseUrl: string, d: set<nat>)
      modifies this
      ensures value == Scrubbed(old(value), baseUrl, d)
    {
      if value.Object? {
        FamilyKinds();
        var obj := ScrubFamilies(KindOf, value.fields, EntryReader(baseUrl), d);
        value := Object(obj);
      }
    }
  }

  /** The keys in `done` are scrubbed, the others as they were. */
  ghost predicate PartlyScrubbed(
      kind: Families, was: map<string, Value>, obj: map<string, Value>, done: set<string>, read: Reader, d: set<nat>)
  {
    && obj.Keys == was.Keys
    && forall key :: key in was ==>
         obj[key] == if key in done then ScrubField(kind(key), was[key], read, d) else was[key]
  }

  const SCALAR_FIELDS: seq<string> := ["dupe_of", "dup_id"]

  /** The families as the scrubber walks them: what each key it names is, and where custom fields are. */
  ghost predicate Walked(kind: Families) {
    && (forall key :: kind(key) == IdList <==> key in LINKED_ID_FIELDS)
    && (forall key :: kind(key) == IdScalar <==> key in SCALAR_FIELDS)
    && (forall key :: kind(key) == UrlField <==> key == "url")
    && (forall key :: kind(key) == SeeAlso <==> key == "see_also")
    && (forall key :: kind(key) == Custom <==> "cf_" <= key)
  }

  lemma FamilyKinds()
    ensures Walked(KindOf)
  {
    forall key: string | "cf_" <= key
      ensures KindOf(key) == Custom
    {
      assert key[0] == 'c' && key[1] == 'f';
      assert forall i :: 0 <= i < |LINKED_ID_FIELDS| ==> LINKED_ID_FIELDS[i][0] != 'c';
    }
  }

  /** The `cf_` fields, in any order. */
  method ScrubCustom(ghost kind: Families, ghost was: map<string, Value>, obj0: map<string, Value>,
                     ghost done0: set<string>, read: Reader, d: set<nat>)
      returns (obj: map<string, Value>)
    requires PartlyScrubbed(kind, was, obj0, done0, read, d)
    requires forall key :: "cf_" <= key ==> kind(key) == Custom && key !in done0
    requires forall key :: key in was && kind(key) != Plain ==> key in done0 || "cf_" <= key
    ensures obj == ScrubbedFields(kind, was, read, d)
  {
    obj := obj0;
    ghost var done := done0;
    var todo := set key | key in obj && "cf_" <= key;
    while todo != {}
      invariant todo <= obj.Keys && forall key :: key in todo ==> "cf_" <= key && key !in done
      invariant PartlyScrubbed(kind, was, obj, done, read, d)
      invariant forall key :: key in was && kind(key) != Plain ==> key in done || key in todo
      decreases todo
    {
      var key :| key in todo;
      match obj[key] {
        case Array(items) => obj := obj[key := Array(Keep(NumbersWithin(d), items))];
        case Number(_) => if !Among(AsU64(obj[key]), d) { obj := obj[key := Null]; }
        case _ =>
      }
      todo := todo - {key};
      done := done + {key};
    }
  }

  lemma DistinctLists()
    ensures forall i, j :: 0 <= i < j < |LINKED_ID_FIELDS| ==> LINKED_ID_FIELDS[i] != LINKED_ID_FIELDS[j]
  {
    assert "depends_on"[7] != "dependson"[7];
    assert "regressed_by"[7] != "regressions"[7];
  }

  /** The id-list fields, one after the other. */
  method ScrubLists(ghost kind: Families, was: map<string, Value>, read: Reader, d: set<nat>)
      returns (obj: map<string, Value>, ghost done: set<string>)
    requires Walked(kind)
    ensures PartlyScrubbed(kind, was, obj, done, read, d)
    ensures forall key :: key in done <==> kind(key) == IdList
  {
    obj := was;
    done := {};
    DistinctLists();
    for i := 0 to |LINKED_ID_FIELDS|
      invariant PartlyScrubbed(kind, was, obj, done, read, d)
      invariant forall key :: key in done ==> kind(key) == IdList
      invariant forall key :: key in done <==> key in LINKED_ID_FIELDS[..i]
    {
      var field := LINKED_ID_FIELDS[i];
      assert field !in done;
      assert kind(field) == IdList;
      if field in obj {
        match obj[field] {
          case Array(items) => obj := obj[field := Array(Keep(NamesOnly(d), items))];
          case v => if !Among(AsU64(v), d) { obj := obj[field := Null]; }
        }
      }
      done := done + {field};
    }
  }

  /** `dupe_of` and `dup_id`. */
  method ScrubScalars(ghost kind: Families, ghost was: map<string, Value>, obj0: map<string, Value>,
                      ghost done0: set<string>, read: Reader, d: set<nat>)
      returns (obj: map<string, Value>, ghost done: set<string>)
    requires Walked(kind) && PartlyScrubbed(kind, was, obj0, done0, read, d)
    ensures PartlyScrubbed(kind, was, obj, done, read, d)
    ensures forall key :: key in done <==> key in done0 || kind(key) == IdScalar
  {
    obj, done := obj0, done0;
    for i := 0 to |SCALAR_FIELDS|
      invariant PartlyScrubbed(kind, was, obj, done, read, d)
      invariant forall key :: key in done ==> key in done0 || kind(key) == IdScalar
      invariant done0 <= done && forall j :: 0 <= j < i ==> SCALAR_FIELDS[j] in done
    {
      var field := SCALAR_FIELDS[i];
      assert kind(field) == IdScalar;
      if field in obj && !Among(AsU64(obj[field]), d) {
        obj := obj[field := Null];
      }
      done := done + {field};
    }
  }

  /** One key replaced by its scrubbed value. */
  lemma OneScrubbed(kind: Families, was: map<string, Value>, obj: map<string, Value>, done: set<string>,
                    key: string, v: Value, read: Reader, d: set<nat>)
    requires PartlyScrubbed(kind, was, obj, done, read, d)
    requires key in was ==> v == ScrubField(kind(key), was[key], read, d)
    ensures PartlyScrubbed(kind, was, if key in obj then obj[key := v] else obj, done + {key}, read, d)
  {
  }

  /** `url`, the scalar fields and `see_also`. */
  method ScrubSingles(ghost kind: Families, ghost was: map<string, Value>, obj0: map<string, Value>,
                      ghost done0: set<string>, read: Reader, d: set<nat>)
      returns (obj: map<string, Value>, ghost done: set<string>)
    requires Walked(kind) && PartlyScrubbed(kind, was, obj0, done0, read, d)
    requires forall key :: key in done0 <==> kind(key) == IdList
    ensures PartlyScrubbed(kind, was, obj, done, read, d)
    ensures forall key :: key in done <==> kind(key) != Custom && kind(key) != Plain
  {
    obj, done := ScrubUrl(kind, was, obj0, done0, read, d);
    obj, done := ScrubScalars(kind, was, obj, done, read, d);
    obj, done := ScrubSeeAlso(kind, was, obj, done, read, d);
  }

  method ScrubUrl(ghost kind: Families, ghost was: map<string, Value>, obj0: map<string, Value>,
                  ghost done0: set<string>, read: Reader, d: set<nat>)
      returns (obj: map<string, Value>, ghost done: set<string>)
    requires Walked(kind) && PartlyScrubbed(kind, was, obj0, done0, read, d)
    requires forall key :: kind(key) == UrlField ==> key !in done0
    ensures PartlyScrubbed(kind, was, obj, done, read, d)
    ensures forall key :: key in done <==> key in done0 || kind(key) == UrlField
  {
    obj, done := obj0, done0 + {"url"};
    assert kind("url") == UrlField;
    if "url" in obj {
      var named := if obj["url"].Str? then read(obj["url"]) else None;
      if named.Some? && named.value !in d {
        obj := obj["url" := Null];
        OneScrubbed(kind, was, obj0, done0, "url", Null, read, d);
      }
    }
  }

  method ScrubSeeAlso(ghost kind: Families, ghost was: map<string, Value>, obj0: map<string, Value>,
                      ghost done0: set<string>, read: Reader, d: set<nat>)
      returns (obj: map<string, Value>, ghost done: set<string>)
    requires Walked(kind) && PartlyScrubbed(kind, was, obj0, done0, read, d)
    requires forall key :: kind(key) == SeeAlso ==> key !in done0
    ensures PartlyScrubbed(kind, was, obj, done, read, d)
    ensures forall key :: key in done <==> key in done0 || kind(key) == SeeAlso
  {
    obj, done := obj0, done0 + {"see_also"};
    assert kind("see_also") == SeeAlso;
    if "see_also" in obj && obj["see_also"].Array? {
      obj := obj["see_also" := Array(Keep(EntriesWithin(read, d), obj["see_also"].items))];
      OneScrubbed(kind, was, obj0, done0, "see_also", obj["see_also"], read, d);
    }
  }

  /** The body of `scrub_bug_links`: the field families one after the other. */
  method ScrubFamilies(ghost kind: Families, was: map<string, Value>, read: Reader, d: set<nat>)
      returns (obj: map<string, Value>)
    requires Walked(kind)
    ensures obj == ScrubbedFields(kind, was, read, d)
  {
    ghost var done;
    obj, done := ScrubLists(kind, was, read, d);
    obj, done := ScrubSingles(kind, was, obj, done, read, d);
    obj := ScrubCustom(kind, was, obj, done, read, d);
  }

  // ----- exactness -----

  lemma {:induction false} KeepMembers<T>(p: T -> bool, s: seq<T>)
    ensures forall x :: x in Keep(p, s) <==> x in s && p(x)
  {
    if s != [] {
      KeepMembers(p, s[1..]);
      assert s == [s[0]] + s[1..];
    }
  }

  lemma {:induction false} KeepTwice<T>(p: T -> bool, q: T -> bool, r: T -> bool, s: seq<T>)
    requires forall x :: r(x) <==> p(x) && q(x)
    ensures Keep(q, Keep(p, s)) == Keep(r, s)
  {
    if s != [] {
      KeepTwice(p, q, r, s[1..]);
      var rest := Keep(p, s[1..]);
      assert ([s[0]] + rest)[1..] == rest;
      assert Keep(p, s) == if p(s[0]) then [s[0]] + rest else rest;
    }
  }

  lemma FieldScrubExact(kind: FieldKind, v: Value, read: Reader, d: set<nat>)
    ensures IdsIn(kind, ScrubField(kind, v, read, d), read) == IdsIn(kind, v, read) * d
  {
    if v.Array? {
      KeepMembers(NamesOnly(d), v.items);
      KeepMembers(EntriesWithin(read, d), v.items);
      KeepMembers(NumbersWithin(d), v.items);
    }
  }

  lemma ScrubIsExactBy(kind: Families, bug: Value, read: Reader, d: set<nat>)
    ensures LinkedIdsBy(kind, ScrubbedBy(kind, bug, read, d), read) == LinkedIdsBy(kind, bug, read) * d
  {
    if bug.Object? {
      var before, after := bug.fields, ScrubbedFields(kind, bug.fields, read, d);
      var left, right := LinkedIdsBy(kind, Object(after), read), LinkedIdsBy(kind, bug, read);
      forall id
        ensures id in left <==> id in right && id in d
      {
        forall key | key in before
          ensures id in IdsIn(kind(key), after[key], read) <==> id in IdsIn(kind(key), before[key], read) && id in d
        {
          FieldScrubExact(kind(key), before[key], read, d);
        }
      }
    }
  }

  /** Scrubbing removes exactly the links outside `d`: what the reader finds afterwards is the intersection. */
  lemma ScrubIsExact(bug: Value, baseUrl: string, d: set<nat>)
    ensures LinkedBugIds(Scrubbed(bug, baseUrl, d), baseUrl) == LinkedBugIds(bug, baseUrl) * d
  {
    ScrubIsExactBy(KindOf, bug, EntryReader(baseUrl), d);
  }

  lemma FieldScrubTwice(kind: FieldKind, v: Value, read: Reader, d: set<nat>, e: set<nat>)
    ensures ScrubField(kind, ScrubField(kind, v, read, d), read, e) == ScrubField(kind, v, read, d * e)
  {
    if v.Array? {
      KeepTwice(NamesOnly(d), NamesOnly(e), NamesOnly(d * e), v.items);
      KeepTwice(EntriesWithin(read, d), EntriesWithin(read, e), EntriesWithin(read, d * e), v.items);
      KeepTwice(NumbersWithin(d), NumbersWithin(e), NumbersWithin(d * e), v.items);
    }
  }

  lemma ScrubTwiceBy(kind: Families, bug: Value, read: Reader, d: set<nat>, e: set<nat>)
    ensures ScrubbedBy(kind, ScrubbedBy(kind, bug, read, d), read, e) == ScrubbedBy(kind, bug, read, d * e)
  {
    if bug.Object? {
      forall key | key in bug.fields
        ensures ScrubField(kind(key), ScrubField(kind(key), bug.fields[key], read, d), read, e)
             == ScrubField(kind(key), bug.fields[key], read, d * e)
      {
        FieldScrubTwice(kind(key), bug.fields[key], read, d, e);
      }
    }
  }

  /** Two scrubs are one with the common set; in particular a second scrub changes nothing. */
  lemma ScrubTwice(bug: Value, baseUrl: string, d: set<nat>, e: set<nat>)
    ensures Scrubbed(Scrubbed(bug, baseUrl, d), baseUrl, e) == Scrubbed(bug, baseUrl, d * e)
    ensures Scrubbed(Scrubbed(bug, baseUrl, d), baseUrl, d) == Scrubbed(bug, baseUrl, d)
  {
    ScrubTwiceBy(KindOf, bug, EntryReader(baseUrl), d, e);
    ScrubTwiceBy(KindOf, bug, EntryReader(baseUrl), d, d);
    assert d * d == d;
  }
}
