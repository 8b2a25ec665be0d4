/**
 * The gate on filing a bug: crates/bugwarden-core/src/guard.rs, `may_create`
 * and the rewrite it judges.
 */
module CreateGate {
  import opened Prelude
  import opened Text
  import opened Json
  import opened Policy
  import PolicyLaws
  import BugJson
  import Links

  // ----- Bugzilla's rewrites -----

  /** What Bugzilla's trim of a name may strip on any Perl. */
  predicate NameBlank(c: char) {
    White(c) || c as int == 0x180E
  }

  /** `bugzilla_trim_name`. */
  function TrimName(s: string): string {
    Trim(NameBlank, s)
  }

  predicate Control(c: char) {
    c as int < 0x20 || c as int == 0x7F
  }

  predicate ControlFree(s: string) {
    forall i :: 0 <= i < |s| ==> !Control(s[i])
  }

  /** What one character turns into; `inRun` when the one before it was a control character. */
  function Piece(c: char, inRun: bool): string {
    if !Control(c) then [c] else if inRun then [] else " "
  }

  /** Each run of control characters becomes one space. */
  function Collapse(s: string, inRun: bool): string {
    if s == [] then [] else Piece(s[0], inRun) + Collapse(s[1..], Control(s[0]))
  }

  /** `bugzilla_clean_text`. */
  function CleanText(s: string): string {
    Trim(White, Collapse(s, false))
  }

  lemma NextPiece(s: string, i: nat, inRun: bool, before: string)
    requires i < |s|
    ensures before + Collapse(s[i..], inRun) == (before + Piece(s[i], inRun)) + Collapse(s[i + 1..], Control(s[i]))
  {
    var rest := s[i..];
    assert rest[1..] == s[i + 1..];
    var x, y := Piece(s[i], inRun), Collapse(s[i + 1..], Control(s[i]));
    assert before + (x + y) == (before + x) + y;
  }

  method BugzillaCleanText(s: string) returns (text: string)
    ensures text == CleanText(s)
  {
    var cleaned: string := [];
    var inRun := false;
    assert s[0..] == s;
    for i := 0 to |s|
      invariant cleaned + Collapse(s[i..], inRun) == Collapse(s, false)
    {
      NextPiece(s, i, inRun, cleaned);
      if Control(s[i]) {
        if !inRun {
          cleaned := cleaned + " ";
        }
        inRun := true;
      } else {
        cleaned := cleaned + [s[i]];
        inRun := false;
      }
    }
    assert s[|s|..] == [] && cleaned + [] == cleaned;
    text := Trim(White, cleaned);
  }

  lemma {:induction false} CollapseClears(s: string, inRun: bool)
    ensures ControlFree(Collapse(s, inRun))
  {
    if s != [] {
      CollapseClears(s[1..], Control(s[0]));
    }
  }

  lemma {:induction false} CollapseKeeps(s: string, inRun: bool)
    requires ControlFree(s)
    ensures Collapse(s, inRun) == s
  {
    if s != [] {
      var rest := s[1..];
      assert forall i :: 0 <= i < |rest| ==> rest[i] == s[i + 1];
      CollapseKeeps(rest, false);
      assert s == [s[0]] + rest;
    }
  }

  /** A cleaned text holds no control character, no blank edge, and stays as it is when cleaned again. */
  lemma CleanTextSettles(s: string)
    ensures ControlFree(CleanText(s)) && Trimmed(White, CleanText(s)) && CleanText(CleanText(s)) == CleanText(s)
  {
    var c := Collapse(s, false);
    CollapseClears(s, false);
    var i, j := TrimShape(White, c);
    var t := c[i..j];
    assert forall k :: 0 <= k < |t| ==> t[k] == c[i + k];
    assert i < j ==> t[0] == c[i] && t[j - i - 1] == c[j - 1];
    CollapseKeeps(t, false);
    TrimTwice(White, c);
  }

  // ----- the rewrite -----

  datatype Part = Name | Title | Keywords | Plain

  function PartOf(key: string): Part {
    if key == "product" || key == "component" || key == "severity" || key == "priority" then Name
    else if key == "summary" then Title
    else if key == "keywords" then Keywords
    else Plain
  }

  type Parts = string -> Part

  /** Perl's false strings, which Bugzilla skips in a keyword list. */
  predicate Falsy(s: string) {
    s == "" || s == "0"
  }

  function FiledKeyword(k: Value): Value {
    if k.Str? && !Falsy(TrimName(k.s)) then Str(TrimName(k.s)) else k
  }

  predicate Filed(k: Value) {
    !(k.Str? && Falsy(k.s))
  }

  function FiledKeywords(items: seq<Value>): seq<Value> {
    if items == [] then []
    else (if Filed(FiledKeyword(items[0])) then [FiledKeyword(items[0])] else []) + FiledKeywords(items[1..])
  }

  /** One field of the request as it will be filed; nothing when it is left out. */
  function FiledField(part: Part, v: Value): Option<Value> {
    match part
    case Name => Some(if v.Str? then Str(TrimName(v.s)) else v)
    case Title => Some(if v.Str? then Str(CleanText(v.s)) else v)
    case Keywords =>
      if !v.Array? then Some(v)
      else if FiledKeywords(v.items) == [] then None
      else Some(Array(FiledKeywords(v.items)))
    case Plain => Some(v)
  }

  function FiledFields(part: Parts, fields: map<string, Value>): map<string, Value> {
    map key | key in fields && FiledField(part(key), fields[key]).Some? :: FiledField(part(key), fields[key]).value
  }

  /** `normalize_create_request` as a function. */
  function Normalized(requested: Value): Value {
    if requested.Object? then Object(FiledFields(PartOf, requested.fields)) else requested
  }

  lemma FiledKeywordTwice(k: Value)
    ensures FiledKeyword(FiledKeyword(k)) == FiledKeyword(k)
  {
    if k.Str? {
      TrimTwice(NameBlank, k.s);
    }
  }

  lemma FiledFirst(first: Value, rest: seq<Value>)
    requires FiledKeyword(first) == first && Filed(first)
    ensures FiledKeywords([first] + rest) == [first] + FiledKeywords(rest)
  {
    assert ([first] + rest)[1..] == rest;
  }

  lemma {:induction false} FiledKeywordsSettle(items: seq<Value>)
    ensures FiledKeywords(FiledKeywords(items)) == FiledKeywords(items)
    ensures forall k :: k in FiledKeywords(items) ==> FiledKeyword(k) == k && Filed(k)
  {
    if items != [] {
      var first, rest := FiledKeyword(items[0]), FiledKeywords(items[1..]);
      FiledKeywordsSettle(items[1..]);
      FiledKeywordTwice(items[0]);
      if Filed(first) {
        assert FiledKeywords(items) == [first] + rest;
        FiledFirst(first, rest);
      } else {
        assert FiledKeywords(items) == rest;
      }
    }
  }

  lemma FiledFieldSettles(part: Part, v: Value)
    ensures FiledField(part, v).Some? ==> FiledField(part, FiledField(part, v).value) == FiledField(part, v)
  {
    if v.Str? {
      TrimTwice(NameBlank, v.s);
      CleanTextSettles(v.s);
    } else if v.Array? {
      FiledKeywordsSettle(v.items);
    }
  }

  /** Once is enough: what will be filed is what filing it again would file. */
  lemma NormalizedOnce(requested: Value)
    ensures Normalized(Normalized(requested)) == Normalized(requested)
  {
    if requested.Object? {
      FiledFieldsSettle(PartOf, requested.fields);
    }
  }

  lemma FiledFieldsSettle(part: Parts, fields: map<string, Value>)
    ensures FiledFields(part, FiledFields(part, fields)) == FiledFields(part, fields)
  {
    forall key | key in fields
      ensures FiledField(part(key), fields[key]).Some? ==>
                FiledField(part(key), FiledField(part(key), fields[key]).value) == FiledField(part(key), fields[key])
    {
      FiledFieldSettles(part(key), fields[key]);
    }
  }

  // ----- the rewrite, in place -----

  const NAME_KEYS: seq<string> := ["product", "component", "severity", "priority"]

  /** The keys as the rewrite walks them. */
  ghost predicate Walked(part: Parts) {
    && (forall key :: part(key) == Name <==> key in NAME_KEYS)
    && (forall key :: part(key) == Title <==> key == "summary")
    && (forall key :: part(key) == Keywords <==> key == "keywords")
  }

  lemma PartsAreWalked()
    ensures Walked(PartOf)
  {
  }

  /** The parts in `done` are as they will be filed, the rest as they came. */
  ghost predicate PartlyFiled(part: Parts, was: map<string, Value>, now: map<string, Value>, done: set<Part>) {
    && (forall key :: key in now <==> key in was && (part(key) in done ==> FiledField(part(key), was[key]).Some?))
    && (forall key :: key in now ==>
          now[key] == if part(key) in done then FiledField(part(key), was[key]).value else was[key])
  }

  method FileNames(ghost part: Parts, was: map<string, Value>) returns (now: map<string, Value>)
    requires Walked(part)
    ensures PartlyFiled(part, was, now, {Name})
  {
    now := was;
    for i := 0 to |NAME_KEYS|
      invariant now.Keys == was.Keys
      invariant forall key :: key in was ==>
        now[key] == if key in NAME_KEYS[..i] then FiledField(Name, was[key]).value else was[key]
    {
      var key := NAME_KEYS[i];
      assert NAME_KEYS[..i + 1] == NAME_KEYS[..i] + [key];
      if key in now && now[key].Str? {
        TrimTwice(NameBlank, was[key].s);
        now := now[key := Str(TrimName(now[key].s))];
      }
    }
    assert NAME_KEYS[..|NAME_KEYS|] == NAME_KEYS;
  }

  method FileKeywords(items: seq<Value>) returns (filed: seq<Value>)
    ensures filed == FiledKeywords(items)
  {
    filed := [];
    for i := 0 to |items|
      invariant filed + FiledKeywords(items[i..]) == FiledKeywords(items)
    {
      ghost var rest, before := items[i..], filed;
      assert rest[0] == items[i] && rest[1..] == items[i + 1..];
      var k := items[i];
      if k.Str? {
        var trimmed := TrimName(k.s);
        if !Falsy(trimmed) {
          k := Str(trimmed);
        }
      }
      assert k == FiledKeyword(rest[0]);
      if Filed(k) {
        filed := filed + [k];
      }
      ConcatAssoc(before, if Filed(k) then [k] else [], FiledKeywords(rest[1..]));
    }
  }

  method FileTitle(ghost part: Parts, ghost was: map<string, Value>, now0: map<string, Value>) returns (now: map<string, Value>)
    requires Walked(part) && PartlyFiled(part, was, now0, {Name})
    ensures PartlyFiled(part, was, now, {Name, Title})
  {
    now := now0;
    var key := "summary";
    assert part(key) == Title;
    if key in now && now[key].Str? {
      var text := BugzillaCleanText(now[key].s);
      now := now[key := Str(text)];
    }
    assert forall k :: part(k) == Title ==> k == key;
  }

  method FileKeywordList(ghost part: Parts, ghost was: map<string, Value>, now0: map<string, Value>) returns (now: map<string, Value>)
    requires Walked(part) && PartlyFiled(part, was, now0, {Name, Title})
    ensures PartlyFiled(part, was, now, {Name, Title, Keywords})
  {
    now := now0;
    var key := "keywords";
    assert part(key) == Keywords;
    if key in now && now[key].Array? {
      var filed := FileKeywords(now[key].items);
      now := if filed == [] then now - {key} else now[key := Array(filed)];
    }
    assert forall k :: part(k) == Keywords ==> k == key;
  }

  method Normalize(ghost part: Parts, was: map<string, Value>) returns (now: map<string, Value>)
    requires Walked(part)
    ensures now == FiledFields(part, was)
  {
    now := FileNames(part, was);
    now := FileTitle(part, was, now);
    now := FileKeywordList(part, was, now);
  }

  // ----- evidence -----

  /** `keywords_are_as_filed`. */
  predicate KeywordsAsFiled(requested: Value) {
    match Get(requested, "keywords")
    case Some(Array(items)) => forall k :: k in items ==> k.Str? && TrimName(k.s) == k.s
    case _ => false
  }

  /** The prospective bug as the gate classifies it, read off the rewritten request. */
  function Prospective(filed: Value, created: Time, w: World): BugMeta {
    var meta := BugJson.FromJson(filed, None, w);
    var component := Get(filed, "component");
    meta.(creationTime := Some(created),
          groups := None,
          createdByMe := Some(true),
          components := if component.Some? && component.value.Str? then meta.components else None,
          keywords := if KeywordsAsFiled(filed) then meta.keywords else None)
  }

  /** `may_create`; `created` and `now` are the two readings of the clock it takes. */
  predicate MayCreate(p: Policy, requested: Value, created: Time, now: Time, w: World) {
    Allows(Classify(p, Prospective(Normalized(requested), created, w), now, Creating, w), Create)
  }

  /** A create request, rewritten in place before it is judged and filed. */
  class CreateRequest {
    var requested: Value

    constructor (v: Value)
      ensures requested == v
    {
      requested := v;
    }

    method Judge(p: Policy, created: Time, now: Time, w: World) returns (permitted: bool)
      modifies this
      ensures requested == Normalized(old(requested))
      ensures permitted == MayCreate(p, old(requested), created, now, w)
    {
      if requested.Object? {
        PartsAreWalked();
        var fields := Normalize(PartOf, requested.fields);
        requested := Object(fields);
      }
      permitted := Allows(Classify(p, Prospective(requested, created, w), now, Creating, w), Create);
    }
  }

  /** The request that is filed would be judged as the one that came. */
  lemma FiledFormJudgedTheSame(p: Policy, requested: Value, created: Time, now: Time, w: World)
    ensures MayCreate(p, Normalized(requested), created, now, w) == MayCreate(p, requested, created, now, w)
  {
    NormalizedOnce(requested);
  }

  const EVIDENCE_KEYS :=
    {"summary", "product", "component", "status", "severity", "priority", "keywords", "whiteboard", "status_whiteboard"}

  /** The verdict depends on nothing the request claims about its groups, its date or its creator. */
  lemma ClaimsDoNotCount(p: Policy, a: Value, b: Value, created: Time, now: Time, w: World)
    requires forall key :: key in EVIDENCE_KEYS ==> Get(a, key) == Get(b, key)
    ensures MayCreate(p, a, created, now, w) == MayCreate(p, b, created, now, w)
  {
    forall key | key in EVIDENCE_KEYS
      ensures Get(Normalized(a), key) == Get(Normalized(b), key)
    {
      FiledAlike(a, b, PartOf, key);
    }
    EvidenceDecides(Normalized(a), Normalized(b), created, w);
  }

  lemma FiledAlike(a: Value, b: Value, part: Parts, key: string)
    requires Get(a, key) == Get(b, key)
    ensures (if a.Object? && key in FiledFields(part, a.fields) then Some(FiledFields(part, a.fields)[key]) else None)
         == (if b.Object? && key in FiledFields(part, b.fields) then Some(FiledFields(part, b.fields)[key]) else None)
  {
  }

  lemma EvidenceDecides(a: Value, b: Value, created: Time, w: World)
    requires forall key :: key in EVIDENCE_KEYS ==> Get(a, key) == Get(b, key)
    ensures Prospective(a, created, w) == Prospective(b, created, w)
  {
    assert Get(a, "keywords") == Get(b, "keywords") && Get(a, "component") == Get(b, "component");
    assert Get(a, "summary") == Get(b, "summary") && Get(a, "product") == Get(b, "product");
    assert Get(a, "status") == Get(b, "status") && Get(a, "severity") == Get(b, "severity");
    assert Get(a, "priority") == Get(b, "priority");
    assert Get(a, "whiteboard") == Get(b, "whiteboard") && Get(a, "status_whiteboard") == Get(b, "status_whiteboard");
  }

  lemma {:induction false} NamesOfStrings(items: seq<Value>)
    requires forall k :: k in items ==> k.Str?
    ensures BugJson.NamesIn(items).Some? && |BugJson.NamesIn(items).value| == |items|
    ensures forall i :: 0 <= i < |items| ==> BugJson.NamesIn(items).value[i] == items[i].s
  {
    if items != [] {
      assert items[0] in items && forall k :: k in items[1..] ==> k in items;
      NamesOfStrings(items[1..]);
      assert forall i :: 0 < i < |items| ==> items[i] == items[1..][i - 1];
    }
  }

  /** Keywords that count as evidence are exactly the names that will be filed: trimmed, and none Bugzilla would skip. */
  lemma KeywordEvidence(requested: Value, created: Time, w: World)
    ensures var filed := Normalized(requested);
      var keywords := Prospective(filed, created, w).keywords;
      keywords.Some? ==>
        && Get(filed, "keywords").Some? && Get(filed, "keywords").value.Array?
        && |keywords.value| == |Get(filed, "keywords").value.items|
        && forall i :: 0 <= i < |keywords.value| ==>
             && Get(filed, "keywords").value.items[i] == Str(keywords.value[i])
             && TrimName(keywords.value[i]) == keywords.value[i] && !Falsy(keywords.value[i])
  {
    var filed := Normalized(requested);
    if KeywordsAsFiled(filed) {
      var items := Get(filed, "keywords").value.items;
      NamesOfStrings(items);
      assert PartOf("keywords") == Keywords;
      FiledKeywordsSettle(requested.fields["keywords"].items);
      assert items == FiledKeywords(requested.fields["keywords"].items);
      assert forall i :: 0 <= i < |items| ==> items[i] in items;
    }
  }

  /**
   * A permission to file does not hang on what Bugzilla adds later: whatever
   * groups, and whatever else the request left open, the bug ends up with, it
   * would have been permitted with all of that known.
   */
  lemma PermissionCoversWhatIsAdded(p: Policy, requested: Value, created: Time, now: Time, w: World, bug: BugMeta)
    requires MayCreate(p, requested, created, now, w)
    requires PolicyLaws.Completes(Prospective(Normalized(requested), created, w), bug)
    ensures Allows(Classify(p, bug, now, Creating, w), Create)
  {
    PolicyLaws.GrantStable(p, Prospective(Normalized(requested), created, w), bug, now, Creating, w);
  }
}
