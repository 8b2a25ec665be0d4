/**
 * What a write's custom fields link to, spelt out: custom field types and values
 * as crates/bugwarden-core/src/custom_fields.rs documents them.
 */
module FieldLaws {
  import opened Prelude
  import opened Text
  import opened Json
  import opened CustomFields

  // ----- types -----

  /** The kind a type code stands for; other codes settle nothing. */
  lemma TypeCodes(t: Value, code: nat)
    requires t == Number(U64(code)) || (t.Str? && ParseU64(t.s) == Some(code))
    ensures KindOfType(t) == Some(BugId) <==> code == 6
    ensures KindOfType(t) == Some(BugList) <==> code == 7 || code == 22
    ensures KindOfType(t) == Some(Other) <==> code in {1, 2, 3, 4, 5, 8, 9, 10}
    ensures KindOfType(t) != Some(Unknown)
  {
  }

  // ----- values -----

  /** Digits, with a hash in front or none, and ASCII blanks around. */
  ghost predicate SpellsNumber(s: string, n: nat) {
    exists hash, digits :: (hash == "" || hash == "#") && digits != [] && AllDigits(digits) && Decimal(digits) == n
                           && Stripped(AsciiWhite, s, hash + digits)
  }

  lemma NumberIsSpelt(s: string, n: nat)
    ensures SpellsNumber(s, n) <==>
      var digits := StripHash(Trim(AsciiWhite, s));
      digits != [] && AllDigits(digits) && Decimal(digits) == n
  {
    var t := Trim(AsciiWhite, s);
    var digits := StripHash(t);
    TrimIsStripped(AsciiWhite, s, t);
    if digits != [] && AllDigits(digits) && Decimal(digits) == n {
      var hash := if t[0] == '#' then "#" else "";
      assert t == hash + digits;
      assert SpellsNumber(s, n);
    }
    if SpellsNumber(s, n) {
      var hash, given :| (hash == "" || hash == "#") && given != [] && AllDigits(given) && Decimal(given) == n
                         && Stripped(AsciiWhite, s, hash + given);
      TrimIsStripped(AsciiWhite, s, hash + given);
      assert Digit(given[0]);
      assert hash == "" ==> hash + given == given;
      assert hash == "#" ==> (hash + given)[1..] == given;
    }
  }

  /** One scalar names a bug: as a number, or a text spelling one. Bug 0 never exists. */
  ghost predicate ScalarNames(v: Value, id: nat) {
    id != 0 && (v == Number(U64(id)) || (v.Str? && id <= U64_MAX && SpellsNumber(v.s, id)))
  }

  /** It names none, and says so: nothing, zero, or blanks. */
  ghost predicate ScalarClears(v: Value) {
    v == Null || v == Number(U64(0)) || (v.Str? && (All(AsciiWhite, v.s) || SpellsNumber(v.s, 0)))
  }

  lemma BlankTrims(s: string)
    ensures Trim(AsciiWhite, s) == [] <==> All(AsciiWhite, s)
  {
    var i, j := TrimShape(AsciiWhite, s);
    if All(AsciiWhite, s) {
      assert s == s + [] + [];
      TrimUnique(AsciiWhite, s, [], []);
    }
  }

  lemma ScalarExactly(v: Value, id: nat)
    ensures Parse(v) == Target(id) <==> ScalarNames(v, id)
    ensures Parse(v) == Clear <==> ScalarClears(v)
  {
    if v.Str? {
      NumberIsSpelt(v.s, id);
      NumberIsSpelt(v.s, 0);
      BlankTrims(v.s);
    }
  }

  /** `piece` stands in `s` between `a` and `b`, whole, with no comma in it. */
  predicate CutOut(s: string, a: string, piece: string, b: string) {
    s == a + piece + b && (a == [] || a[|a| - 1] == ',') && (b == [] || b[0] == ',') && ',' !in piece
  }

  /** The pieces of a text between its commas. */
  ghost predicate CommaPiece(s: string, piece: string) {
    exists a, b :: CutOut(s, a, piece, b)
  }

  lemma {:induction false} PieceOfSplit(s: string, i: nat) returns (a: string, b: string)
    requires i < |Split(s)|
    ensures CutOut(s, a, Split(s)[i], b)
    ensures i == 0 <==> a == []
  {
    if s == [] {
      a, b := [], [];
    } else {
      var r := Split(s[1..]);
      assert s == [s[0]] + s[1..];
      if s[0] == ',' {
        if i == 0 {
          a, b := [], s;
          assert [] + [] + s == s;
        } else {
          a, b := PieceOfSplit(s[1..], i - 1);
          a := [','] + a;
        }
      } else {
        a, b := PieceOfSplit(s[1..], i);
        if i > 0 {
          a := [s[0]] + a;
        }
      }
    }
  }

  lemma {:induction false} SplitHasPiece(a: string, piece: string, b: string)
    requires (a == [] || a[|a| - 1] == ',') && (b == [] || b[0] == ',') && ',' !in piece
    ensures piece in Split(a + piece + b)
    decreases |a|, 1
  {
    var s := a + piece + b;
    if a == [] {
      assert s == piece + b;
      if b == [] {
        assert s == piece;
        SplitNone(Comma, piece);
      } else {
        assert s == piece + [','] + b[1..];
        SplitAt(Comma, piece, ',', b[1..]);
      }
    } else {
      assert s[1..] == a[1..] + piece + b && s[0] == a[0];
      SplitHasPiece(a[1..], piece, b);
      if a[0] != ',' {
        SplitHasLater(a, piece, b);
      }
    }
  }

  lemma {:induction false} SplitHasLater(a: string, piece: string, b: string)
    requires a != [] && a[|a| - 1] == ',' && (b == [] || b[0] == ',') && ',' !in piece
    ensures piece in Split(a + piece + b)[1..]
    decreases |a|, 0
  {
    var s := a + piece + b;
    assert s[1..] == a[1..] + piece + b && s[0] == a[0];
    if a[0] == ',' {
      SplitHasPiece(a[1..], piece, b);
    } else {
      SplitHasLater(a[1..], piece, b);
    }
  }

  lemma PiecesExactly(s: string, piece: string)
    ensures piece in Split(s) <==> CommaPiece(s, piece)
  {
    if piece in Split(s) {
      var i :| 0 <= i < |Split(s)| && Split(s)[i] == piece;
      var a, b := PieceOfSplit(s, i);
      assert CutOut(s, a, piece, b);
    }
    if CommaPiece(s, piece) {
      var a, b :| CutOut(s, a, piece, b);
      SplitHasPiece(a, piece, b);
    }
  }

  // ----- what a field names -----

  /** One of the values a list-shaped field holds: an element, a comma piece, or itself. */
  ghost predicate Holds(v: Value, part: Value) {
    match v
    case Array(items) => part in items
    case Str(s) => part.Str? && CommaPiece(s, part.s)
    case _ => part == v
  }

  /** What a field of this kind is judged by: nothing, the whole value, or each of the values in it. */
  ghost predicate JudgedBy(kind: CustomFieldKind, v: Value, part: Value) {
    match kind
    case Other => false
    case BugList => Holds(v, part)
    case BugId => part == v
    case Unknown => part == v
  }

  lemma ListValuesExactly(v: Value, x: CustomLinkValue)
    ensures x in LinkValues(v) <==> exists part :: Holds(v, part) && Parse(part) == x
  {
    match v
    case Array(items) =>
      if x in LinkValues(v) {
        var i :| 0 <= i < |items| && Parse(items[i]) == x;
        assert Holds(v, items[i]);
      }
      forall part | Holds(v, part) && Parse(part) == x
        ensures x in LinkValues(v)
      {
        var i :| 0 <= i < |items| && items[i] == part;
        assert ParseEach(items)[i] == x;
      }
    case Str(s) => StringValuesExactly(s, x);
    case _ =>
  }

  lemma StringValuesExactly(s: string, x: CustomLinkValue)
    ensures x in LinkValues(Str(s)) <==> exists part :: Holds(Str(s), part) && Parse(part) == x
  {
    if ',' !in s {
      SplitNone(Comma, s);
    }
    var parts := Split(s);
    assert LinkValues(Str(s)) == ParseEachStr(parts);
    if x in LinkValues(Str(s)) {
      var i :| 0 <= i < |parts| && ParseEachStr(parts)[i] == x;
      PiecesExactly(s, parts[i]);
      assert Holds(Str(s), Str(parts[i])) && Parse(Str(parts[i])) == x;
    }
    forall part | Holds(Str(s), part) && Parse(part) == x
      ensures x in LinkValues(Str(s))
    {
      PiecesExactly(s, part.s);
      var i :| 0 <= i < |parts| && parts[i] == part.s;
      assert ParseEachStr(parts)[i] == x;
    }
  }

  lemma LinksExactly(kind: CustomFieldKind, v: Value, x: CustomLinkValue)
    ensures x in LinksUnder(kind, v) <==> exists part :: JudgedBy(kind, v, part) && Parse(part) == x
  {
    if kind == BugList {
      ListValuesExactly(v, x);
      assert forall part :: JudgedBy(kind, v, part) <==> Holds(v, part);
    } else if kind != Other {
      assert JudgedBy(kind, v, v);
    }
  }

  /** The targets of a write are the bugs its linking fields name, value by value. */
  lemma TargetsExactly(fields: Fields, kinds: map<string, CustomFieldKind>, id: nat)
    ensures id in Targets(fields, kinds) <==>
      exists f, part :: f in fields && JudgedBy(KindIn(kinds, f.0), f.1, part) && ScalarNames(part, id)
  {
    if id in Targets(fields, kinds) {
      var f :| f in fields && id in TargetsIn(LinksUnder(KindIn(kinds, f.0), f.1));
      assert Target(id) in LinksUnder(KindIn(kinds, f.0), f.1);
      LinksExactly(KindIn(kinds, f.0), f.1, Target(id));
      var part :| JudgedBy(KindIn(kinds, f.0), f.1, part) && Parse(part) == Target(id);
      ScalarExactly(part, id);
    }
    forall f, part | f in fields && JudgedBy(KindIn(kinds, f.0), f.1, part) && ScalarNames(part, id)
      ensures id in Targets(fields, kinds)
    {
      ScalarExactly(part, id);
      var links := LinksUnder(KindIn(kinds, f.0), f.1);
      LinksExactly(KindIn(kinds, f.0), f.1, Target(id));
      assert Target(id) in links && id == Target(id).id;
      assert id in TargetsIn(links);
    }
  }

  lemma UnassessableExactly(v: Value)
    ensures Parse(v) == Unassessable <==> !ScalarClears(v) && !exists id :: ScalarNames(v, id)
  {
    ScalarExactly(v, if Parse(v).Target? then Parse(v).id else 0);
    if Parse(v).Target? {
      assert ScalarNames(v, Parse(v).id);
    }
    forall id: nat | ScalarNames(v, id)
      ensures Parse(v) == Target(id)
    {
      ScalarExactly(v, id);
    }
  }

  /** A field can be judged exactly when each of its values names a bug or says that it names none. */
  lemma JudgedExactly(f: (string, Value), kinds: map<string, CustomFieldKind>)
    ensures Judged(f, kinds) <==>
      forall part :: JudgedBy(KindIn(kinds, f.0), f.1, part) ==> ScalarClears(part) || exists id :: ScalarNames(part, id)
  {
    LinksExactly(KindIn(kinds, f.0), f.1, Unassessable);
    forall part
      ensures Parse(part) == Unassessable <==> !ScalarClears(part) && !exists id :: ScalarNames(part, id)
    {
      UnassessableExactly(part);
    }
  }
}
