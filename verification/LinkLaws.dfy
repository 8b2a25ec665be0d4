/**
 * Which fields of a bug point at other bugs, and what a scrub makes of each,
 * key by key: crates/bugwarden-core/src/guard.rs, `linked_bug_ids` and
 * `scrub_bug_links`.
 */
module LinkLaws {
  import opened Prelude
  import opened Json
  import opened Links
  import UrlLaws

  // ----- thinning a list out -----

  type Relation<!T> = (T, T) -> bool

  /** An element with `i` left before it: it goes, or becomes the next one that is left. */
  ghost predicate Turn<T>(becomes: Relation<T>, goes: T -> bool, x: T, t: seq<T>, i: nat, j: nat) {
    if goes(x) then j == i else j == i + 1 && i < |t| && becomes(x, t[i])
  }

  /** With `to[k]` of `t` coming from the first `k` of `s`, each element takes its turn, and all of `t` is accounted for. */
  ghost predicate TurnsBy<T>(becomes: Relation<T>, goes: T -> bool, s: seq<T>, t: seq<T>, to: seq<nat>) {
    && |to| == |s| + 1 && to[0] == 0 && to[|s|] == |t|
    && forall k {:trigger s[k]} :: 0 <= k < |s| ==> Turn(becomes, goes, s[k], t, to[k], to[k + 1])
  }

  ghost predicate Turns<T>(becomes: Relation<T>, goes: T -> bool, s: seq<T>, t: seq<T>) {
    exists to :: TurnsBy(becomes, goes, s, t, to)
  }

  function Raised(to: seq<nat>): (r: seq<nat>)
    ensures |r| == |to| && forall i :: 0 <= i < |to| ==> r[i] == to[i] + 1
  {
    seq(|to|, i requires 0 <= i < |to| => to[i] + 1)
  }

  lemma TurnsNone<T>(becomes: Relation<T>, goes: T -> bool)
    ensures Turns(becomes, goes, [], [])
  {
    assert TurnsBy(becomes, goes, [], [], [0]);
  }

  lemma TurnsDrop<T>(becomes: Relation<T>, goes: T -> bool, s: seq<T>, t: seq<T>)
    requires s != [] && goes(s[0]) && Turns(becomes, goes, s[1..], t)
    ensures Turns(becomes, goes, s, t)
  {
    var rest := s[1..];
    var to :| TurnsBy(becomes, goes, rest, t, to);
    var up := [0] + to;
    forall k | 0 <= k < |s|
      ensures Turn(becomes, goes, s[k], t, up[k], up[k + 1])
    {
      if k > 0 {
        assert s[k] == rest[k - 1];
      }
    }
    assert TurnsBy(becomes, goes, s, t, up);
  }

  lemma TurnsKeep<T>(becomes: Relation<T>, goes: T -> bool, s: seq<T>, t: seq<T>)
    requires s != [] && t != [] && !goes(s[0]) && becomes(s[0], t[0]) && Turns(becomes, goes, s[1..], t[1..])
    ensures Turns(becomes, goes, s, t)
  {
    var rest, tail := s[1..], t[1..];
    var to :| TurnsBy(becomes, goes, rest, tail, to);
    var up := [0] + Raised(to);
    forall k | 0 <= k < |s|
      ensures Turn(becomes, goes, s[k], t, up[k], up[k + 1])
    {
      if k > 0 {
        assert s[k] == rest[k - 1] && up[k] == to[k - 1] + 1 && up[k + 1] == to[k] + 1;
        assert Turn(becomes, goes, rest[k - 1], tail, to[k - 1], to[k]);
      }
    }
    assert TurnsBy(becomes, goes, s, t, up);
  }

  /** `t` holds the elements `p` holds of, each in its turn, and no others. */
  ghost predicate Sifted<T>(p: T -> bool, s: seq<T>, t: seq<T>) {
    Turns(Stays<T>(), Not(p), s, t)
  }

  ghost function Stays<T>(): Relation<T> {
    (x, y) => x == y
  }

  function Not<T>(p: T -> bool): T -> bool {
    x => !p(x)
  }

  lemma {:induction false} KeepSifts<T>(p: T -> bool, s: seq<T>)
    ensures Sifted(p, s, Keep(p, s))
  {
    ghost var becomes, goes := Stays<T>(), Not(p);
    if s == [] {
      TurnsNone(becomes, goes);
    } else {
      var rest := Keep(p, s[1..]);
      KeepSifts(p, s[1..]);
      if p(s[0]) {
        assert ([s[0]] + rest)[1..] == rest;
        TurnsKeep(becomes, goes, s, [s[0]] + rest);
      } else {
        assert [] + rest == rest;
        TurnsDrop(becomes, goes, s, rest);
      }
    }
  }

  /** How many of `t` come from the first `k` of `s` grows with `k`. */
  lemma {:induction false} TurnsGrow<T>(becomes: Relation<T>, goes: T -> bool, s: seq<T>, t: seq<T>, to: seq<nat>, i: nat, k: nat)
    requires TurnsBy(becomes, goes, s, t, to) && i <= k <= |s|
    ensures to[i] <= to[k]
  {
    if i < k {
      TurnsGrow(becomes, goes, s, t, to, i, k - 1);
      assert Turn(becomes, goes, s[k - 1], t, to[k - 1], to[k]);
    }
  }

  /** What stands behind the first element, when that goes. */
  lemma TurnsRest<T>(becomes: Relation<T>, goes: T -> bool, s: seq<T>, t: seq<T>, to: seq<nat>)
    requires s != [] && goes(s[0]) && TurnsBy(becomes, goes, s, t, to)
    ensures TurnsBy(becomes, goes, s[1..], t, to[1..])
  {
    assert Turn(becomes, goes, s[0], t, to[0], to[1]);
    var rest, later := s[1..], to[1..];
    forall k | 0 <= k < |rest|
      ensures Turn(becomes, goes, rest[k], t, later[k], later[k + 1])
    {
      assert rest[k] == s[k + 1];
    }
  }

  /** What stands behind the first element, when that stays. */
  lemma TurnsTail<T>(becomes: Relation<T>, goes: T -> bool, s: seq<T>, t: seq<T>, to: seq<nat>)
    requires s != [] && !goes(s[0]) && TurnsBy(becomes, goes, s, t, to)
    ensures t != [] && becomes(s[0], t[0])
    ensures Turns(becomes, goes, s[1..], t[1..])
  {
    assert Turn(becomes, goes, s[0], t, to[0], to[1]);
    var rest, tail := s[1..], t[1..];
    TurnsGrow(becomes, goes, s, t, to, 1, |s|);
    var down: seq<nat> := seq(|s|, i requires 0 <= i < |s| => if to[i + 1] > 0 then to[i + 1] - 1 else 0);
    forall k | 0 <= k < |rest|
      ensures Turn(becomes, goes, rest[k], tail, down[k], down[k + 1])
    {
      assert rest[k] == s[k + 1];
      assert Turn(becomes, goes, s[k + 1], t, to[k + 1], to[k + 2]);
      TurnsGrow(becomes, goes, s, t, to, 1, k + 1);
      TurnsGrow(becomes, goes, s, t, to, 1, k + 2);
    }
    assert TurnsBy(becomes, goes, rest, tail, down);
  }

  /** Only one list is left. */
  lemma {:induction false} SiftedIsKeep<T>(p: T -> bool, s: seq<T>, t: seq<T>)
    requires Sifted(p, s, t)
    ensures t == Keep(p, s)
  {
    ghost var becomes, goes := Stays<T>(), Not(p);
    var to :| TurnsBy(becomes, goes, s, t, to);
    if s == [] {
      assert t == [];
    } else if p(s[0]) {
      TurnsTail(becomes, goes, s, t, to);
      SiftedIsKeep(p, s[1..], t[1..]);
      assert t == [t[0]] + t[1..];
    } else {
      TurnsRest(becomes, goes, s, t, to);
      SiftedIsKeep(p, s[1..], t);
      assert [] + t == t;
    }
  }

  /** Nothing is left exactly when everything goes. */
  lemma {:induction false} NothingLeft<T>(becomes: Relation<T>, goes: T -> bool, s: seq<T>, t: seq<T>)
    requires Turns(becomes, goes, s, t)
    ensures t == [] <==> forall x :: x in s ==> goes(x)
  {
    if s != [] {
      var to :| TurnsBy(becomes, goes, s, t, to);
      if goes(s[0]) {
        TurnsRest(becomes, goes, s, t, to);
        NothingLeft(becomes, goes, s[1..], t);
        assert s == [s[0]] + s[1..];
      } else {
        TurnsTail(becomes, goes, s, t, to);
        assert s[0] in s;
      }
    }
  }

  // ----- which fields point at which bugs -----

  predicate ListKey(key: string) {
    key in {"blocks", "depends_on", "dependson", "duplicates", "regressed_by", "regressions", "blocked"}
  }

  predicate DuplicateKey(key: string) {
    key in {"dupe_of", "dup_id"}
  }

  predicate CustomKey(key: string) {
    |key| >= 3 && key[0] == 'c' && key[1] == 'f' && key[2] == '_'
  }

  /** The number, or a list with the number in it. */
  predicate Carries(v: Value, id: nat) {
    v == Number(U64(id)) || (v.Array? && Number(U64(id)) in v.items)
  }

  /** A text that is a URL of the bug on this instance. */
  ghost predicate LocalUrl(v: Value, baseUrl: string, id: nat) {
    v.Str? && UrlLaws.Matches(v.s, baseUrl, id)
  }

  /** The value of a field points at the bug. */
  ghost predicate Points(key: string, v: Value, baseUrl: string, id: nat) {
    || ((ListKey(key) || CustomKey(key)) && Carries(v, id))
    || (DuplicateKey(key) && v == Number(U64(id)))
    || (key == "url" && LocalUrl(v, baseUrl, id))
    || (key == "see_also" && v.Array? && exists e :: e in v.items && LocalUrl(e, baseUrl, id))
  }

  lemma ListKeys(key: string)
    ensures key in LINKED_ID_FIELDS <==> ListKey(key)
  {
    if key in LINKED_ID_FIELDS {
      var i :| 0 <= i < |LINKED_ID_FIELDS| && LINKED_ID_FIELDS[i] == key;
    }
    assert LINKED_ID_FIELDS[0] == "blocks" && LINKED_ID_FIELDS[1] == "depends_on" && LINKED_ID_FIELDS[2] == "dependson";
    assert LINKED_ID_FIELDS[3] == "duplicates" && LINKED_ID_FIELDS[4] == "regressed_by" && LINKED_ID_FIELDS[5] == "regressions";
    assert LINKED_ID_FIELDS[6] == "blocked";
  }

  /** Each key is of the family its spelling says, and of no other. */
  lemma Kinds(key: string)
    ensures KindOf(key) == IdList <==> ListKey(key)
    ensures KindOf(key) == IdScalar <==> DuplicateKey(key)
    ensures KindOf(key) == UrlField <==> key == "url"
    ensures KindOf(key) == SeeAlso <==> key == "see_also"
    ensures KindOf(key) == Custom <==> CustomKey(key)
  {
    FamilyKinds();
    ListKeys(key);
    assert "cf_" <= key <==> CustomKey(key);
    assert key in SCALAR_FIELDS <==> DuplicateKey(key) by {
      assert SCALAR_FIELDS[0] == "dupe_of" && SCALAR_FIELDS[1] == "dup_id";
    }
  }

  lemma EntryExactly(v: Value, baseUrl: string, id: nat)
    ensures EntryReader(baseUrl)(v) == Some(id) <==> LocalUrl(v, baseUrl, id)
  {
    if v.Str? {
      UrlLaws.SeeAlsoExactly(v.s, baseUrl, id);
    }
  }

  lemma FieldExactly(key: string, v: Value, baseUrl: string, id: nat)
    ensures id in IdsIn(KindOf(key), v, EntryReader(baseUrl)) <==> Points(key, v, baseUrl, id)
  {
    Kinds(key);
    OneKind(key);
    forall e
      ensures EntryReader(baseUrl)(e) == Some(id) <==> LocalUrl(e, baseUrl, id)
    {
      EntryExactly(e, baseUrl, id);
    }
    IdsExactly(KindOf(key), v, EntryReader(baseUrl), id);
  }

  /** No key is of two families. */
  lemma OneKind(key: string)
    ensures ListKey(key) ==> !CustomKey(key) && !DuplicateKey(key) && key != "url" && key != "see_also"
    ensures CustomKey(key) ==> !DuplicateKey(key) && key != "url" && key != "see_also"
    ensures DuplicateKey(key) ==> key != "url" && key != "see_also"
    ensures key == "url" ==> key != "see_also"
  {
    Kinds(key);
  }

  lemma IdsExactly(kind: FieldKind, v: Value, read: Reader, id: nat)
    ensures id in IdsIn(kind, v, read) <==>
      match kind
      case IdList => Carries(v, id)
      case Custom => Carries(v, id)
      case IdScalar => v == Number(U64(id))
      case UrlField => v.Str? && read(v) == Some(id)
      case SeeAlso => v.Array? && exists e :: e in v.items && e.Str? && read(e) == Some(id)
      case Plain => false
  {
    if v.Array? && Number(U64(id)) in v.items {
      assert AsU64(Number(U64(id))) == Some(id);
    }
  }

  /** The links a bug is read to have are exactly these. */
  lemma LinkedExactly(bug: Value, baseUrl: string, id: nat)
    ensures id in LinkedBugIds(bug, baseUrl) <==>
      bug.Object? && exists key :: key in bug.fields && Points(key, bug.fields[key], baseUrl, id)
  {
    if bug.Object? {
      forall key | key in bug.fields
        ensures id in IdsIn(KindOf(key), bug.fields[key], EntryReader(baseUrl)) <==> Points(key, bug.fields[key], baseUrl, id)
      {
        FieldExactly(key, bug.fields[key], baseUrl, id);
      }
    }
  }

  // ----- what a scrub leaves of each field -----

  /** A number of the set. */
  predicate NumberIn(v: Value, d: set<nat>) {
    v.Number? && v.num.U64? && v.num.n in d
  }

  /** A text that is no URL of a bug outside the set. */
  ghost predicate HarmlessUrl(v: Value, baseUrl: string, d: set<nat>) {
    v.Str? && forall id :: LocalUrl(v, baseUrl, id) ==> id in d
  }

  function Inside(d: set<nat>): Value -> bool {
    (v: Value) => NumberIn(v, d)
  }

  function NotOutside(d: set<nat>): Value -> bool {
    (v: Value) => v.Number? ==> NumberIn(v, d)
  }

  ghost function Harmless(baseUrl: string, d: set<nat>): Value -> bool {
    (v: Value) => HarmlessUrl(v, baseUrl, d)
  }

  /** What a field held, and what it holds after a scrub: the list thinned out, a single value kept or nulled, the rest as it was. */
  ghost predicate Left(key: string, was: Value, now: Value, baseUrl: string, d: set<nat>) {
    if ListKey(key) && was.Array? then
      now.Array? && Sifted(Inside(d), was.items, now.items)
    else if ListKey(key) || DuplicateKey(key) then
      now == if NumberIn(was, d) then was else Null
    else if key == "url" then
      now == if was.Str? && !HarmlessUrl(was, baseUrl, d) then Null else was
    else if key == "see_also" && was.Array? then
      now.Array? && Sifted(Harmless(baseUrl, d), was.items, now.items)
    else if CustomKey(key) && was.Array? then
      now.Array? && Sifted(NotOutside(d), was.items, now.items)
    else if CustomKey(key) then
      now == if was.Number? && !NumberIn(was, d) then Null else was
    else
      now == was
  }

  lemma HarmlessExactly(v: Value, baseUrl: string, d: set<nat>)
    ensures v.Str? ==> (HarmlessUrl(v, baseUrl, d) <==> EntryReader(baseUrl)(v).None? || EntryReader(baseUrl)(v).value in d)
  {
    var found := EntryReader(baseUrl)(v);
    forall id: nat
      ensures found == Some(id) <==> LocalUrl(v, baseUrl, id)
    {
      EntryExactly(v, baseUrl, id);
    }
  }

  /** Thinning out depends on what is kept alone. */
  lemma SiftsLike<T>(p: T -> bool, q: T -> bool, s: seq<T>)
    requires forall x :: p(x) <==> q(x)
    ensures Sifted(q, s, Keep(p, s))
  {
    KeepSifts(q, s);
    KeepsLike(p, q, s);
  }

  lemma {:induction false} KeepsLike<T>(p: T -> bool, q: T -> bool, s: seq<T>)
    requires forall x :: p(x) <==> q(x)
    ensures Keep(p, s) == Keep(q, s)
  {
    if s != [] {
      KeepsLike(p, q, s[1..]);
    }
  }

  lemma FieldLeft(key: string, was: Value, baseUrl: string, d: set<nat>)
    ensures Left(key, was, ScrubField(KindOf(key), was, EntryReader(baseUrl), d), baseUrl, d)
  {
    Kinds(key);
    OneKind(key);
    HarmlessExactly(was, baseUrl, d);
    if was.Array? {
      SiftsLike(NamesOnly(d), Inside(d), was.items);
      SiftsLike(NumbersWithin(d), NotOutside(d), was.items);
      forall v: Value
        ensures EntriesWithin(EntryReader(baseUrl), d)(v) <==> HarmlessUrl(v, baseUrl, d)
      {
        HarmlessExactly(v, baseUrl, d);
      }
      SiftsLike(EntriesWithin(EntryReader(baseUrl), d), Harmless(baseUrl, d), was.items);
    }
  }

  /** A scrub leaves this of each field, and of the keys all; and of the bugs outside the set none is pointed at any more. */
  lemma ScrubExactly(bug: Value, baseUrl: string, d: set<nat>)
    ensures var now := Scrubbed(bug, baseUrl, d);
      if bug.Object? then
        && now.Object? && now.fields.Keys == bug.fields.Keys
        && (forall key :: key in bug.fields ==> Left(key, bug.fields[key], now.fields[key], baseUrl, d))
        && (forall key, id :: key in bug.fields && Points(key, now.fields[key], baseUrl, id) ==> id in d)
      else now == bug
  {
    var now := Scrubbed(bug, baseUrl, d);
    if bug.Object? {
      forall key | key in bug.fields
        ensures Left(key, bug.fields[key], now.fields[key], baseUrl, d)
      {
        FieldLeft(key, bug.fields[key], baseUrl, d);
      }
      forall key, id | key in bug.fields && Points(key, now.fields[key], baseUrl, id)
        ensures id in d
      {
        LinkedExactly(now, baseUrl, id);
        ScrubIsExact(bug, baseUrl, d);
      }
    }
  }
}
