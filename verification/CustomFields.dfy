/**
 * Custom field types and the values a client wants to write to them:
 * crates/bugwarden-core/src/custom_fields.rs.
 */
module CustomFields {
  import opened Prelude
  import opened Text
  import opened Json

  datatype CustomFieldKind = BugId | BugList | Other | Unknown

  predicate MayLink(kind: CustomFieldKind) {
    kind != Other
  }

  const LOOKUP_CHUNK: nat := 50

  /** A type code, as a number or as its decimal spelling. */
  function TypeCode(t: Value): Option<nat> {
    match t
    case Number(_) => AsU64(t)
    case Str(s) => ParseU64(s)
    case _ => None
  }

  /** `kind_of_type`: an unaudited code settles nothing. */
  function KindOfType(t: Value): Option<CustomFieldKind> {
    match TypeCode(t)
    case None => None
    case Some(code) =>
      if code == 6 then Some(BugId)
      else if code == 22 || code == 7 then Some(BugList)
      else if code in {1, 2, 3, 4, 5, 8, 9, 10} then Some(Other)
      else None
  }

  // ----- reading one lookup's answer -----

  /** What one entry of the answer says about `name`. */
  function EntryKind(field: Value, name: string): Option<CustomFieldKind> {
    var t := Get(field, "type");
    if GetStr(field, "name") == Some(name) && t.Some? then KindOfType(t.value) else None
  }

  /** What the first `n` entries say about `name`: a link kind once read is only replaced by a later one. */
  function KindFrom(fields: seq<Value>, n: nat, name: string): Option<CustomFieldKind>
    requires n <= |fields|
  {
    if n == 0 then None
    else
      var before, here := KindFrom(fields, n - 1, name), EntryKind(fields[n - 1], name);
      if here.None? || (before.Some? && !MayLink(here.value)) then before else here
  }

  function FieldsOf(envelope: Value): seq<Value> {
    var fields := Get(envelope, "fields");
    if fields.Some? && fields.value.Array? then fields.value.items else []
  }

  function Settled(envelope: Value, name: string): Option<CustomFieldKind> {
    KindFrom(FieldsOf(envelope), |FieldsOf(envelope)|, name)
  }

  /** `kinds_in` as a function. */
  function KindsIn(envelope: Value, names: seq<string>): map<string, CustomFieldKind> {
    map name | name in names && Settled(envelope, name).Some? :: Settled(envelope, name).value
  }

  /** `kinds_in`: one pass over the entries, filling a map. */
  method ReadKinds(envelope: Value, names: seq<string>) returns (out: map<string, CustomFieldKind>)
    ensures out == KindsIn(envelope, names)
  {
    out := map[];
    var fields := FieldsOf(envelope);
    for i := 0 to |fields|
      invariant forall name :: name in out <==> name in names && KindFrom(fields, i, name).Some?
      invariant forall name :: name in out ==> KindFrom(fields, i, name) == Some(out[name])
    {
      var name, t := GetStr(fields[i], "name"), Get(fields[i], "type");
      if name.None? || name.value !in names || t.None? {
        continue;
      }
      var kind := KindOfType(t.value);
      if kind.None? {
        continue;
      }
      if name.value !in out || MayLink(kind.value) {
        out := out[name.value := kind.value];
      }
    }
  }

  /** A name listed several times reads as a link exactly when one of its entries does. */
  lemma {:induction false} LinkWins(fields: seq<Value>, n: nat, name: string)
    requires n <= |fields|
    ensures KindFrom(fields, n, name).Some? <==> exists i :: 0 <= i < n && EntryKind(fields[i], name).Some?
    ensures KindFrom(fields, n, name).Some? ==>
              (MayLink(KindFrom(fields, n, name).value) <==>
                 exists i :: 0 <= i < n && EntryKind(fields[i], name).Some? && MayLink(EntryKind(fields[i], name).value))
    ensures KindFrom(fields, n, name) != Some(Unknown)
  {
    if n > 0 {
      LinkWins(fields, n - 1, name);
    }
  }

  // ----- the cache -----

  /** One request: the names asked for and what came back, if anything did. */
  datatype Lookup = Lookup(names: seq<string>, answer: Option<Value>)

  function Found(l: Lookup): map<string, CustomFieldKind> {
    if l.answer.Some? then KindsIn(l.answer.value, l.names) else map[]
  }

  function NameSet(names: seq<string>): set<string> {
    set name | name in names
  }

  /** What a lookup does to the cache: its names are settled anew or forgotten. */
  function After(known: map<string, CustomFieldKind>, l: Lookup): map<string, CustomFieldKind> {
    (known - NameSet(l.names)) + Found(l)
  }

  /** The cache a history of lookups leaves behind. */
  function Replay(log: seq<Lookup>): map<string, CustomFieldKind> {
    if log == [] then map[] else After(Replay(log[..|log| - 1]), log[|log| - 1])
  }

  /** The most recent lookup that asked for `name`. */
  function LastAsked(log: seq<Lookup>, name: string): Option<Lookup> {
    if log == [] then None
    else if name in log[|log| - 1].names then Some(log[|log| - 1])
    else LastAsked(log[..|log| - 1], name)
  }

  /**
   * Over every history: the cache holds exactly the names whose most recent
   * lookup settled them, with that answer, and never an Unknown.
   */
  lemma {:induction false} CacheIsLastSettled(log: seq<Lookup>, name: string)
    ensures name in Replay(log) <==> LastAsked(log, name).Some? && name in Found(LastAsked(log, name).value)
    ensures name in Replay(log) ==>
              Replay(log)[name] == Found(LastAsked(log, name).value)[name] && Replay(log)[name] != Unknown
  {
    if log != [] {
      CacheIsLastSettled(log[..|log| - 1], name);
      var l := log[|log| - 1];
      if l.answer.Some? {
        var fields := FieldsOf(l.answer.value);
        LinkWins(fields, |fields|, name);
      }
    }
  }

  /** The upstream during one call: what it answers to the `i`-th request for these names. */
  type Upstream = (nat, seq<string>) -> Option<Value>

  /** The requests one call makes: chunks of at most fifty names. */
  function Lookups(bz: Upstream, names: seq<string>, i: nat): seq<Lookup>
    decreases |names|
  {
    if names == [] then []
    else
      var n := Min(LOOKUP_CHUNK, |names|);
      [Lookup(names[..n], bz(i, names[..n]))] + Lookups(bz, names[n..], i + 1)
  }

  /** The names are asked for fifty at a time, in their order, each once. */
  function Fifty(names: seq<string>, k: nat): seq<string>
    requires 50 * k <= |names|
  {
    names[50 * k..if 50 * k + 50 <= |names| then 50 * k + 50 else |names|]
  }

  lemma LaterFifty(names: seq<string>, k: nat)
    requires k > 0 && 50 * k <= |names|
    ensures Fifty(names[50..], k - 1) == Fifty(names, k)
  {
  }

  /** The names are asked for fifty at a time, in their order, each once. */
  lemma {:induction false} FiftyAtATime(bz: Upstream, names: seq<string>, i: nat, k: nat)
    requires 50 * k < |names|
    ensures |Lookups(bz, names, i)| == (|names| + 49) / 50 && k < |Lookups(bz, names, i)|
    ensures Lookups(bz, names, i)[k] == Lookup(Fifty(names, k), bz(i + k, Fifty(names, k)))
    decreases |names|
  {
    var n := Min(LOOKUP_CHUNK, |names|);
    var first, later := names[..n], Lookups(bz, names[n..], i + 1);
    assert Lookups(bz, names, i) == [Lookup(first, bz(i, first))] + later;
    assert Fifty(names, 0) == first;
    if |names| > 50 {
      FiftyAtATime(bz, names[50..], i + 1, if k > 0 then k - 1 else 0);
      if k > 0 {
        LaterFifty(names, k);
      }
    } else {
      assert names[n..] == [];
    }
  }

  ghost predicate Distinct(names: seq<string>) {
    forall i, j :: 0 <= i < j < |names| ==> names[i] != names[j]
  }

  /** Every name of `names` with what the cache now says of it. */
  ghost predicate Reflects(out: map<string, CustomFieldKind>, names: seq<string>, known: map<string, CustomFieldKind>) {
    && out.Keys == NameSet(names)
    && forall name :: name in names ==> out[name] == if name in known then known[name] else Unknown
  }

  class FieldTypeCache {
    var known: map<string, CustomFieldKind>
    ghost var log: seq<Lookup>

    ghost predicate Valid()
      reads this
    {
      known == Replay(log)
    }

    constructor ()
      ensures Valid() && log == []
    {
      known, log := map[], [];
    }

    /** The effect of an answered request: what it settles is cached, what it leaves open is forgotten. */
    method Settle(chunk: seq<string>, envelope: Value) returns (found: map<string, CustomFieldKind>)
      requires Valid()
      modifies this
      ensures Valid() && log == old(log) + [Lookup(chunk, Some(envelope))]
      ensures known == After(old(known), Lookup(chunk, Some(envelope)))
      ensures found == KindsIn(envelope, chunk)
    {
      found := ReadKinds(envelope, chunk);
      ghost var was := known;
      ghost var done: set<string> := {};
      for i := 0 to |chunk|
        invariant log == old(log)
        invariant PartlySettled(was, known, found, done)
        invariant forall name :: name in done ==> name in chunk
        invariant forall j :: 0 <= j < i ==> chunk[j] in done
      {
        var name := chunk[i];
        SettleOne(was, known, found, done, name);
        done := done + {name};
        known := if name in found then known[name := found[name]] else known - {name};
      }
      ghost var l := Lookup(chunk, Some(envelope));
      assert done == NameSet(chunk);
      AllSettled(was, known, found, l);
      log := log + [l];
      assert log[..|log| - 1] == old(log);
    }

    /** The effect of a failed request: every name it covers is forgotten. */
    method Forget(chunk: seq<string>)
      requires Valid()
      modifies this
      ensures Valid() && log == old(log) + [Lookup(chunk, None)]
      ensures known == After(old(known), Lookup(chunk, None))
    {
      known := map name | name in known && name !in chunk :: known[name];
      assert known == After(old(known), Lookup(chunk, None));
      log := log + [Lookup(chunk, None)];
      assert log[..|log| - 1] == old(log);
    }

    /** One request and what is made of its answer; a failed one finds nothing. */
    method Ask(chunk: seq<string>, answer: Option<Value>) returns (found: map<string, CustomFieldKind>)
      requires Valid()
      modifies this
      ensures Valid() && log == old(log) + [Lookup(chunk, answer)]
      ensures known == After(old(known), Lookup(chunk, answer)) && found == Found(Lookup(chunk, answer))
    {
      match answer
      case Some(envelope) => found := Settle(chunk, envelope);
      case None =>
        Forget(chunk);
        found := map[];
    }

    /** `look_up`: ask in chunks, and cache what was answered. Names come from a set, so none repeats. */
    method LookUp(bz: Upstream, names: seq<string>) returns (out: map<string, CustomFieldKind>)
      requires Valid() && Distinct(names)
      modifies this
      ensures Valid() && log == old(log) + Lookups(bz, names, 0)
      ensures Progress(old(known), known, out, NameSet(names), NameSet(names))
    {
      out := map name | name in names :: Unknown;
      var at, i := 0, 0;
      ghost var was := known;
      while at < |names|
        invariant at <= |names| && Valid()
        invariant log + Lookups(bz, names[at..], i) == old(log) + Lookups(bz, names, 0)
        invariant Progress(was, known, out, NameSet(names), NameSet(names[..at]))
        decreases |names| - at
      {
        var n := Min(LOOKUP_CHUNK, |names| - at);
        var chunk := names[at..at + n];
        ghost var l := Lookup(chunk, bz(i, chunk));
        NextChunk(bz, names, at, i);
        ConcatAssoc(log, [l], Lookups(bz, names[at + n..], i + 1));
        TurnProgress(names, at, n, l, was, known, out);
        var found := Ask(chunk, bz(i, chunk));
        out := out + found;
        at := at + n;
        i := i + 1;
      }
      assert names[at..] == [] && names[..at] == names;
    }

    /** `kinds`: cached names answered locally, the others looked up. */
    method Kinds(bz: Upstream, names: seq<string>) returns (out: map<string, CustomFieldKind>)
      requires Valid() && Distinct(names)
      modifies this
      ensures Valid() && Reflects(out, names, known)
      ensures exists missing :: Distinct(missing) && NameSet(missing) == NameSet(names) - old(known).Keys
                && log == old(log) + Lookups(bz, missing, 0)
    {
      out := map[];
      var missing: seq<string> := [];
      for i := 0 to |names|
        invariant Distinct(missing) && forall name :: name in missing <==> name in names[..i] && name !in known
        invariant forall name :: name in out <==> name in names[..i] && name in known
        invariant forall name :: name in out ==> out[name] == known[name]
      {
        assert names[..i + 1] == names[..i] + [names[i]];
        assert names[i] !in names[..i];
        if names[i] in known {
          out := out[names[i] := known[names[i]]];
        } else {
          missing := missing + [names[i]];
        }
      }
      assert names[..|names|] == names;
      assert NameSet(missing) == NameSet(names) - known.Keys;
      if missing != [] {
        var looked := LookUp(bz, missing);
        out := out + looked;
      } else {
        assert log == log + Lookups(bz, missing, 0);
      }
    }

    /** `kinds_fresh`: every name looked up again. */
    method KindsFresh(bz: Upstream, names: seq<string>) returns (out: map<string, CustomFieldKind>)
      requires Valid() && Distinct(names)
      modifies this
      ensures Valid() && Reflects(out, names, known)
      ensures log == old(log) + Lookups(bz, names, 0)
    {
      out := LookUp(bz, names);
    }
  }

  /** The names in `done` are settled anew or forgotten. */
  ghost predicate PartlySettled(was: map<string, CustomFieldKind>, known: map<string, CustomFieldKind>,
                                found: map<string, CustomFieldKind>, done: set<string>)
  {
    && (forall name :: name in known <==> if name in done then name in found else name in was)
    && (forall name :: name in known ==> known[name] == if name in done then found[name] else was[name])
  }

  lemma SettleOne(was: map<string, CustomFieldKind>, known: map<string, CustomFieldKind>,
                  found: map<string, CustomFieldKind>, done: set<string>, name: string)
    requires PartlySettled(was, known, found, done)
    ensures PartlySettled(was, if name in found then known[name := found[name]] else known - {name}, found, done + {name})
  {
  }

  lemma AllSettled(was: map<string, CustomFieldKind>, known: map<string, CustomFieldKind>,
                   found: map<string, CustomFieldKind>, l: Lookup)
    requires PartlySettled(was, known, found, NameSet(l.names)) && found == Found(l)
    ensures known == After(was, l)
  {
  }

  /** The names in `done` are answered as the cache has them, the others of `all` are open, no other is touched. */
  ghost predicate Progress(was: map<string, CustomFieldKind>, known: map<string, CustomFieldKind>,
                           out: map<string, CustomFieldKind>, all: set<string>, done: set<string>)
  {
    && out.Keys == all
    && (forall name :: name in all ==> out[name] == if name in done && name in known then known[name] else Unknown)
    && (forall name :: name !in done ==> (name in known <==> name in was))
    && (forall name :: name !in done && name in known ==> known[name] == was[name])
  }

  lemma SplitNames(names: seq<string>, at: nat, n: nat)
    requires at + n <= |names| && Distinct(names)
    ensures NameSet(names[..at + n]) == NameSet(names[..at]) + NameSet(names[at..at + n])
    ensures NameSet(names[..at]) !! NameSet(names[at..at + n]) && NameSet(names[at..at + n]) <= NameSet(names)
  {
    assert names[..at + n] == names[..at] + names[at..at + n];
  }

  lemma NextChunk(bz: Upstream, names: seq<string>, at: nat, i: nat)
    requires at < |names|
    ensures var n := Min(LOOKUP_CHUNK, |names| - at);
      Lookups(bz, names[at..], i)
      == [Lookup(names[at..at + n], bz(i, names[at..at + n]))] + Lookups(bz, names[at + n..], i + 1)
  {
    var n, rest := Min(LOOKUP_CHUNK, |names| - at), names[at..];
    assert rest[..n] == names[at..at + n] && rest[n..] == names[at + n..];
  }

  lemma Advance(was: map<string, CustomFieldKind>, before: map<string, CustomFieldKind>,
                out: map<string, CustomFieldKind>, found: map<string, CustomFieldKind>,
                all: set<string>, done: set<string>, l: Lookup)
    requires Progress(was, before, out, all, done) && found == Found(l)
    requires done !! NameSet(l.names) && NameSet(l.names) <= all
    ensures Progress(was, After(before, l), out + found, all, done + NameSet(l.names))
  {
    var asked, known := NameSet(l.names), After(before, l);
    assert found.Keys <= asked;
    assert forall name :: name in known <==> if name in asked then name in found else name in before;
  }

  /** One turn of the lookup's loop: one chunk of names more is done. */
  lemma TurnProgress(names: seq<string>, at: nat, n: nat, l: Lookup,
                     was: map<string, CustomFieldKind>, before: map<string, CustomFieldKind>, out: map<string, CustomFieldKind>)
    requires at + n <= |names| && Distinct(names) && l.names == names[at..at + n]
    requires Progress(was, before, out, NameSet(names), NameSet(names[..at]))
    ensures Progress(was, After(before, l), out + Found(l), NameSet(names), NameSet(names[..at + n]))
  {
    var all, done := NameSet(names), NameSet(names[..at]);
    SplitNames(names, at, n);
    Advance(was, before, out, Found(l), all, done, l);
    assert done + NameSet(l.names) == NameSet(names[..at + n]);
  }

  // ----- values a client wants to write -----

  datatype CustomLinkValue = Clear | Target(id: nat) | Unassessable

  /** `CustomLinkValue::parse_str`: an ASCII trim, one optional `#`, then digits that fit an id. */
  function ParseStr(s: string): CustomLinkValue {
    var t := Trim(AsciiWhite, s);
    if t == [] then Clear
    else
      var digits := StripHash(t);
      if digits == [] || !AllDigits(digits) then Unassessable
      else match DigitsU64(digits)
        case Some(id) => if id == 0 then Clear else Target(id)
        case None => Unassessable
  }

  function Parse(v: Value): CustomLinkValue {
    match v
    case Null => Clear
    case Number(num) =>
      (match num
       case U64(n) => if n == 0 then Clear else Target(n)
       case OtherNumber(_) => Unassessable)
    case Str(s) => ParseStr(s)
    case _ => Unassessable
  }

  function ParseEach(items: seq<Value>): seq<CustomLinkValue> {
    seq(|items|, i requires 0 <= i < |items| => Parse(items[i]))
  }

  function ParseEachStr(parts: seq<string>): seq<CustomLinkValue> {
    seq(|parts|, i requires 0 <= i < |parts| => ParseStr(parts[i]))
  }

  /** `link_values`: every link a list-shaped value could carry. */
  function LinkValues(v: Value): seq<CustomLinkValue> {
    match v
    case Array(items) => ParseEach(items)
    case Str(s) => if ',' in s then ParseEachStr(Split(s)) else [ParseStr(s)]
    case _ => [Parse(v)]
  }

  /** The custom fields of a write, in key order. */
  type Fields = seq<(string, Value)>

  function TargetsIn(values: seq<CustomLinkValue>): set<nat> {
    set v | v in values && v.Target? :: v.id
  }

  /** `candidate_ids`. */
  function CandidateIds(fields: Fields): set<nat> {
    set f, id | f in fields && id in TargetsIn(LinkValues(f.1)) :: id
  }

  function KindIn(kinds: map<string, CustomFieldKind>, name: string): CustomFieldKind {
    if name in kinds then kinds[name] else Unknown
  }

  /** The links one field carries under the kind it has. */
  function LinksUnder(kind: CustomFieldKind, v: Value): seq<CustomLinkValue> {
    match kind
    case Other => []
    case BugList => LinkValues(v)
    case _ => [Parse(v)]
  }

  datatype CustomLinks = CustomLinks(targets: set<nat>, unassessable: Option<string>)

  function Targets(fields: Fields, kinds: map<string, CustomFieldKind>): set<nat> {
    set f, id | f in fields && id in TargetsIn(LinksUnder(KindIn(kinds, f.0), f.1)) :: id
  }

  predicate Judged(f: (string, Value), kinds: map<string, CustomFieldKind>) {
    Unassessable !in LinksUnder(KindIn(kinds, f.0), f.1)
  }

  /** `custom_links`: the targets, and the first field in key order that cannot be judged. */
  method FindCustomLinks(fields: Fields, kinds: map<string, CustomFieldKind>) returns (out: CustomLinks)
    ensures out.targets == Targets(fields, kinds)
    ensures out.unassessable.None? <==> forall f :: f in fields ==> Judged(f, kinds)
    ensures out.unassessable.Some? ==> exists i :: FirstUnjudged(fields, i, out.unassessable.value, kinds)
  {
    var targets, bad, first := ScanFields(fields, kinds);
    AllTargets(fields, |fields|, kinds);
    assert fields[..|fields|] == fields;
    AllOrFirst(fields, bad, first, kinds);
    out := CustomLinks(targets, bad);
  }

  /** The pass over the fields. */
  method ScanFields(fields: Fields, kinds: map<string, CustomFieldKind>)
      returns (targets: set<nat>, bad: Option<string>, ghost first: nat)
    ensures targets == TargetsBelow(fields, |fields|, kinds)
    ensures bad.None? ==> JudgedBelow(fields, |fields|, kinds)
    ensures bad.Some? ==> FirstUnjudged(fields, first, bad.value, kinds)
  {
    targets, bad, first := {}, None, 0;
    for i := 0 to |fields|
      invariant targets == TargetsBelow(fields, i, kinds)
      invariant bad.None? ==> JudgedBelow(fields, i, kinds)
      invariant bad.Some? ==> FirstUnjudged(fields, first, bad.value, kinds)
    {
      var more, anyBad := LinksOfField(fields[i], kinds);
      targets := targets + more;
      if anyBad && bad.None? {
        bad, first := Some(fields[i].0), i;
      }
    }
  }

  ghost function TargetsBelow(fields: Fields, n: nat, kinds: map<string, CustomFieldKind>): set<nat>
    requires n <= |fields|
  {
    if n == 0 then {}
    else TargetsBelow(fields, n - 1, kinds) + TargetsIn(LinksUnder(KindIn(kinds, fields[n - 1].0), fields[n - 1].1))
  }

  lemma NoFields(fields: Fields, kinds: map<string, CustomFieldKind>)
    requires fields == []
    ensures Targets(fields, kinds) == {}
  {
  }

  lemma {:induction false} AllTargets(fields: Fields, n: nat, kinds: map<string, CustomFieldKind>)
    requires n <= |fields|
    ensures TargetsBelow(fields, n, kinds) == Targets(fields[..n], kinds)
  {
    if n == 0 {
      NoFields(fields[..0], kinds);
    } else {
      AllTargets(fields, n - 1, kinds);
      OneMoreField(fields, n - 1, kinds);
    }
  }

  lemma AllOrFirst(fields: Fields, bad: Option<string>, first: nat, kinds: map<string, CustomFieldKind>)
    requires bad.None? ==> JudgedBelow(fields, |fields|, kinds)
    requires bad.Some? ==> FirstUnjudged(fields, first, bad.value, kinds)
    ensures bad.None? <==> forall f :: f in fields ==> Judged(f, kinds)
  {
    assert bad.Some? ==> fields[first] in fields;
  }

  method LinksOfField(f: (string, Value), kinds: map<string, CustomFieldKind>) returns (targets: set<nat>, anyBad: bool)
    ensures targets == TargetsIn(LinksUnder(KindIn(kinds, f.0), f.1)) && (anyBad <==> !Judged(f, kinds))
  {
    targets, anyBad := CollectTargets(LinksUnder(KindIn(kinds, f.0), f.1));
  }

  ghost predicate JudgedBelow(fields: Fields, n: nat, kinds: map<string, CustomFieldKind>)
    requires n <= |fields|
  {
    forall j :: 0 <= j < n ==> Judged(fields[j], kinds)
  }

  ghost predicate FirstUnjudged(fields: Fields, i: nat, name: string, kinds: map<string, CustomFieldKind>) {
    i < |fields| && fields[i].0 == name && !Judged(fields[i], kinds) && JudgedBelow(fields, i, kinds)
  }

  method CollectTargets(pieces: seq<CustomLinkValue>) returns (targets: set<nat>, anyBad: bool)
    ensures targets == TargetsIn(pieces) && (anyBad <==> Unassessable in pieces)
  {
    targets, anyBad := {}, false;
    for i := 0 to |pieces|
      invariant targets == TargetsIn(pieces[..i]) && (anyBad <==> Unassessable in pieces[..i])
    {
      assert pieces[..i + 1] == pieces[..i] + [pieces[i]];
      match pieces[i]
      case Clear =>
      case Target(id) => targets := targets + {id};
      case Unassessable => anyBad := true;
    }
    assert pieces[..|pieces|] == pieces;
  }

  lemma OneMoreField(fields: Fields, i: nat, kinds: map<string, CustomFieldKind>)
    requires i < |fields|
    ensures Targets(fields[..i + 1], kinds)
         == Targets(fields[..i], kinds) + TargetsIn(LinksUnder(KindIn(kinds, fields[i].0), fields[i].1))
  {
    assert fields[..i + 1] == fields[..i] + [fields[i]];
  }

  // ----- what the write side promises -----

  /** A text with a comma in it is never one id. */
  lemma CommaIsUnassessable(s: string)
    requires ',' in s
    ensures ParseStr(s) == Unassessable
  {
    var i, j := TrimShape(AsciiWhite, s);
    var t := s[i..j];
    var k :| 0 <= k < |s| && s[k] == ',';
    assert i <= k < j && t[k - i] == ',';
    var digits := StripHash(t);
    assert ',' in digits by {
      if t[0] == '#' {
        assert t == ['#'] + digits;
      }
    }
    var n :| 0 <= n < |digits| && digits[n] == ',';
    assert !Digit(digits[n]);
  }

  /** A value judged as one scalar reads the same as a list. */
  lemma ScalarReadsAsList(v: Value)
    requires Parse(v) != Unassessable
    ensures LinkValues(v) == [Parse(v)]
  {
    if v.Str? && ',' in v.s {
      CommaIsUnassessable(v.s);
    }
  }

  /** The cap judged before any request covers every target a write can turn out to have. */
  lemma TargetsWithinCandidates(fields: Fields, kinds: map<string, CustomFieldKind>)
    ensures Targets(fields, kinds) <= CandidateIds(fields)
  {
    forall f, id | f in fields && id in TargetsIn(LinksUnder(KindIn(kinds, f.0), f.1))
      ensures id in CandidateIds(fields)
    {
      if KindIn(kinds, f.0) != BugList {
        ScalarReadsAsList(f.1);
      }
    }
  }

  /** `worse` is `kinds` with some of the kinds no longer known. */
  ghost predicate Degrades(kinds: map<string, CustomFieldKind>, worse: map<string, CustomFieldKind>) {
    forall name :: KindIn(worse, name) == Unknown || KindIn(worse, name) == KindIn(kinds, name)
  }

  /** Not knowing a field's type can refuse a write, but never lets one through that knowing would stop. */
  lemma NotKnowingNeverAdmits(fields: Fields, kinds: map<string, CustomFieldKind>, worse: map<string, CustomFieldKind>)
    requires Degrades(kinds, worse)
    requires forall f :: f in fields ==> Judged(f, worse)
    ensures forall f :: f in fields ==> Judged(f, kinds)
    ensures Targets(fields, kinds) <= Targets(fields, worse)
  {
    forall f | f in fields
      ensures Judged(f, kinds)
      ensures TargetsIn(LinksUnder(KindIn(kinds, f.0), f.1)) <= TargetsIn(LinksUnder(KindIn(worse, f.0), f.1))
    {
      DegradedField(f, kinds, worse);
    }
    TargetsGrow(fields, kinds, worse);
  }

  lemma DegradedField(f: (string, Value), kinds: map<string, CustomFieldKind>, worse: map<string, CustomFieldKind>)
    requires Degrades(kinds, worse) && Judged(f, worse)
    ensures Judged(f, kinds)
    ensures TargetsIn(LinksUnder(KindIn(kinds, f.0), f.1)) <= TargetsIn(LinksUnder(KindIn(worse, f.0), f.1))
  {
    if KindIn(worse, f.0) == Unknown {
      assert LinksUnder(Unknown, f.1) == [Parse(f.1)];
      assert Parse(f.1) != Unassessable;
      ScalarReadsAsList(f.1);
    }
  }

  lemma TargetsGrow(fields: Fields, kinds: map<string, CustomFieldKind>, worse: map<string, CustomFieldKind>)
    requires forall f :: f in fields ==>
      TargetsIn(LinksUnder(KindIn(kinds, f.0), f.1)) <= TargetsIn(LinksUnder(KindIn(worse, f.0), f.1))
    ensures Targets(fields, kinds) <= Targets(fields, worse)
  {
  }
}
