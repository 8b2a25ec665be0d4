/**
 * Bug ids in the text of one history value, and what is left of it once some
 * may not be named: crates/bugwarden-core/src/guard.rs.
 */
module HistoryText {
  import opened Prelude
  import opened Text
  import CustomFields
  import Links
  import UrlScan

  /** How a field's `added` and `removed` text names other bugs. */
  datatype HistoryLinks = List | CustomScalar(strict: bool) | UrlScalar

  /** `history_link_kind`: the core link fields first, so no custom field can shadow one. */
  function LinkKind(field: string, kinds: map<string, CustomFields.CustomFieldKind>): Option<HistoryLinks> {
    if field == "url" then Some(UrlScalar)
    else if field in Links.LINKED_ID_FIELDS || field == "dupe_of" || field == "dup_id" || field == "see_also" then Some(List)
    else if !("cf_" <= field) then None
    else match CustomFields.KindIn(kinds, field)
      case BugId => Some(CustomScalar(true))
      case BugList => Some(List)
      case Unknown => Some(CustomScalar(false))
      case Other => None
  }

  /** What is read in relation to this instance: a `see_also` style entry, and the URLs inside a text. */
  datatype Local = Local(entry: string -> Option<nat>, embedded: string -> set<nat>)

  function LocalTo(baseUrl: string): Local {
    Local((s: string) => Links.SeeAlsoId(s, baseUrl), (s: string) => UrlScan.EmbeddedIds(s, baseUrl))
  }

  /** A reading that finds nothing in an empty text. */
  ghost predicate Quiet(l: Local) {
    l.embedded([]) == {}
  }

  lemma LocalIsQuiet(baseUrl: string)
    ensures Quiet(LocalTo(baseUrl))
  {
    var base := Links.BaseOf(baseUrl);
    if base != [] {
      var t := UrlScan.SitesOf(AsciiLower([]), base);
      assert AsciiLower([]) == [];
      assert !t.occurs(0);
      assert UrlScan.FindFrom(t, 0).None?;
    }
  }

  // ----- reading -----

  /** The id one comma piece names: digits, with one `#` at most, or a local URL. */
  function PieceId(piece: string, l: Local): Option<nat> {
    match ParseU64(StripHash(piece))
    case Some(id) => Some(id)
    case None => l.entry(piece)
  }

  function IdsOfPieces(pieces: seq<string>, l: Local): set<nat> {
    set piece | piece in pieces && PieceId(piece, l).Some? :: PieceId(piece, l).value
  }

  function ListIds(value: string, l: Local): set<nat> {
    IdsOfPieces(Pieces(value), l)
  }

  /** `scalar_bug_id`. */
  function ScalarBugId(value: string): Option<nat> {
    var digits := StripHash(Trim(White, value));
    if digits == [] || !AllDigits(digits) then None
    else
      var id := DigitsU64(digits);
      if id == Some(0) then None else id
  }

  function ScalarIds(value: string): set<nat> {
    Links.OneId(ScalarBugId(value))
  }

  /** `history_ids_in`. */
  function IdsIn(kind: HistoryLinks, value: string, l: Local): set<nat> {
    match kind
    case List => ListIds(value, l)
    case CustomScalar(_) => ScalarIds(value)
    case UrlScalar => l.embedded(value)
  }

  // ----- keeping -----

  function MayStay(l: Local, d: set<nat>): string -> bool {
    (piece: string) => PieceId(piece, l).None? || PieceId(piece, l).value in d
  }

  /** `keep_disclosable_ids`. */
  function KeepIds(value: string, l: Local, d: set<nat>): string {
    Join(Links.Keep(MayStay(l, d), Pieces(value)))
  }

  /** `is_clear_marker`: empty, or zeros with one `#` at most. */
  predicate IsClearMarker(value: string) {
    var t := Trim(White, value);
    t == [] || (StripHash(t) != [] && forall i :: 0 <= i < |StripHash(t)| ==> StripHash(t)[i] == '0')
  }

  /** `keep_custom_scalar`. */
  function KeepScalar(value: string, strict: bool, d: set<nat>): string {
    if IsClearMarker(value) then value
    else match ScalarBugId(Trim(White, value))
      case Some(id) => if id in d then value else []
      case None => if strict then [] else value
  }

  /** `keep_url_scalar`. */
  function KeepUrl(value: string, l: Local, d: set<nat>): string {
    if l.embedded(value) <= d then value else []
  }

  /** What a history scrub keeps of a value. */
  function KeepIn(kind: HistoryLinks, value: string, l: Local, d: set<nat>): string {
    match kind
    case List => KeepIds(value, l, d)
    case CustomScalar(strict) => KeepScalar(value, strict, d)
    case UrlScalar => KeepUrl(value, l, d)
  }

  /** What an update scrub keeps: as for history, but a field of unknown kind is split like a list. */
  function KeepInUpdate(kind: HistoryLinks, value: string, l: Local, d: set<nat>): string {
    if kind == CustomScalar(false) && !IsClearMarker(value) then KeepIds(value, l, d)
    else KeepIn(kind, value, l, d)
  }

  // ----- lists -----

  /** What is kept of a list reads back as the pieces that may stay. */
  lemma KeptPieces(value: string, l: Local, d: set<nat>)
    ensures Pieces(KeepIds(value, l, d)) == Links.Keep(MayStay(l, d), Pieces(value))
  {
    var kept := Links.Keep(MayStay(l, d), Pieces(value));
    PiecesClean(value);
    Links.KeepMembers(MayStay(l, d), Pieces(value));
    JoinRoundTrip(kept);
  }

  lemma KeepIdsExact(value: string, l: Local, d: set<nat>)
    ensures ListIds(KeepIds(value, l, d), l) == ListIds(value, l) * d
  {
    KeptPieces(value, l, d);
    Links.KeepMembers(MayStay(l, d), Pieces(value));
  }

  lemma KeepIdsTwice(value: string, l: Local, d: set<nat>, e: set<nat>)
    ensures KeepIds(KeepIds(value, l, d), l, e) == KeepIds(value, l, d * e)
  {
    KeptPieces(value, l, d);
    Links.KeepTwice(MayStay(l, d), MayStay(l, e), MayStay(l, d * e), Pieces(value));
  }

  // ----- scalars -----

  /** The cleared readings name no bug. */
  lemma ClearNamesNothing(value: string)
    requires IsClearMarker(value)
    ensures ScalarBugId(value) == None
  {
    var digits := StripHash(Trim(White, value));
    if digits != [] && AllDigits(digits) {
      DecimalZero(digits);
    }
  }

  lemma ScalarOfTrimmed(value: string)
    ensures ScalarBugId(Trim(White, value)) == ScalarBugId(value)
  {
    TrimTwice(White, value);
  }

  lemma KeepScalarExact(value: string, strict: bool, d: set<nat>)
    ensures ScalarIds(KeepScalar(value, strict, d)) == ScalarIds(value) * d
  {
    ScalarOfTrimmed(value);
    EmptyIsClear();
    ClearNamesNothing([]);
    if IsClearMarker(value) {
      ClearNamesNothing(value);
    }
  }

  lemma EmptyIsClear()
    ensures IsClearMarker([]) && Pieces([]) == []
  {
    assert Trim(White, []) == [];
    JoinRoundTrip([]);
  }

  lemma KeepScalarTwice(value: string, strict: bool, d: set<nat>, e: set<nat>)
    ensures KeepScalar(KeepScalar(value, strict, d), strict, e) == KeepScalar(value, strict, d * e)
  {
    EmptyIsClear();
  }

  // ----- any kind -----

  /** A kept value names exactly the ids that may be named; a URL value is all or nothing. */
  lemma KeptIdsExact(kind: HistoryLinks, value: string, l: Local, d: set<nat>)
    requires Quiet(l)
    ensures !kind.UrlScalar? ==> IdsIn(kind, KeepIn(kind, value, l, d), l) == IdsIn(kind, value, l) * d
    ensures kind.UrlScalar? ==>
              IdsIn(kind, KeepIn(kind, value, l, d), l) == if IdsIn(kind, value, l) <= d then IdsIn(kind, value, l) else {}
  {
    match kind
    case List => KeepIdsExact(value, l, d);
    case CustomScalar(strict) => KeepScalarExact(value, strict, d);
    case UrlScalar =>
  }

  /** Keeping twice is keeping once, with what both allow. */
  lemma KeptTwice(kind: HistoryLinks, value: string, l: Local, d: set<nat>, e: set<nat>)
    requires Quiet(l)
    ensures KeepIn(kind, KeepIn(kind, value, l, d), l, e) == KeepIn(kind, value, l, d * e)
  {
    match kind
    case List => KeepIdsTwice(value, l, d, e);
    case CustomScalar(strict) => KeepScalarTwice(value, strict, d, e);
    case UrlScalar =>
  }

  lemma NothingInNothing(kind: HistoryLinks, l: Local)
    requires Quiet(l)
    ensures IdsIn(kind, [], l) == {}
  {
    EmptyIsClear();
    ClearNamesNothing([]);
  }

  // ----- updates -----

  /** Every id a value can be taken to name; a field of unknown kind is read both ways. */
  function NamedIn(kind: HistoryLinks, value: string, l: Local): set<nat> {
    if kind == CustomScalar(false) then ListIds(value, l) + ScalarIds(value) else IdsIn(kind, value, l)
  }

  /** A clean text with only digits in it, `#` aside, is one piece. */
  lemma ScalarIsOnePiece(pieces: seq<string>, l: Local)
    requires forall piece :: piece in pieces ==> Clean(piece)
    ensures ScalarIds(Join(pieces)) <= IdsOfPieces(pieces, l)
  {
    var text := Join(pieces);
    if pieces == [] {
      EmptyIsClear();
      ClearNamesNothing([]);
    } else if |pieces| == 1 {
      assert Clean(pieces[0]) && text == pieces[0];
      TrimTrimmed(White, text);
      var digits := StripHash(text);
      if digits != [] && AllDigits(digits) {
        assert Digit(digits[0]) && ParseU64(digits) == DigitsU64(digits);
        if ScalarBugId(text).Some? {
          assert PieceId(text, l) == ScalarBugId(text) && text in pieces;
        }
      }
    } else {
      var h, tail := pieces[0], Join(pieces[1..]);
      assert Clean(h) && text == h + ", " + tail;
      CommaNoScalar(text, |h|);
    }
  }

  /** A text with a comma inside it is no scalar id. */
  lemma CommaNoScalar(text: string, k: nat)
    requires k < |text| && text[k] == ','
    ensures ScalarBugId(text) == None
  {
    var i, j := TrimShape(White, text);
    var t := text[i..j];
    assert i <= k < j && t[k - i] == ',';
    var digits := StripHash(t);
    if t[0] == '#' {
      assert digits[k - i - 1] == t[k - i];
    }
    assert exists n :: 0 <= n < |digits| && !Digit(digits[n]);
  }

  /** A cleared reading, taken as a list, names at most bug 0. */
  lemma ClearListNamesNothing(value: string, l: Local)
    requires IsClearMarker(value)
    ensures forall id :: id in ListIds(value, l) ==> id == 0
  {
    var i, j := TrimShape(White, value);
    var t := value[i..j];
    if t == [] {
      WhiteHasNoPieces(value);
    } else {
      var digits := StripHash(t);
      assert CommaFree(t) by {
        if t[0] == '#' {
          assert t == ['#'] + digits;
        }
      }
      assert CommaFree(value) by {
        forall k | 0 <= k < |value|
          ensures value[k] != ','
        {
          if i <= k < j {
            assert value[k] == t[k - i];
          }
        }
      }
      OneTrimmedPiece(value);
      DecimalZero(digits);
    }
  }

  lemma OneTrimmedPiece(value: string)
    requires CommaFree(value)
    ensures Pieces(value) == if Trim(White, value) == [] then [] else [Trim(White, value)]
  {
    SplitNone(Comma, value);
    assert TrimEach([value]) == (if Trim(White, value) == [] then [] else [Trim(White, value)]) + TrimEach([value][1..]);
  }

  lemma WhiteHasNoPieces(value: string)
    requires Trim(White, value) == []
    ensures Pieces(value) == []
  {
    var i, j := TrimShape(White, value);
    assert CommaFree(value);
    OneTrimmedPiece(value);
  }

  /** What an update keeps names no bug outside the set, however the field is read. */
  lemma UpdateKeepsWithin(kind: HistoryLinks, value: string, l: Local, d: set<nat>)
    requires Quiet(l)
    ensures forall id :: id in NamedIn(kind, KeepInUpdate(kind, value, l, d), l) && id != 0 ==> id in d
  {
    if kind == CustomScalar(false) {
      if IsClearMarker(value) {
        ClearNamesNothing(value);
        ClearListNamesNothing(value, l);
      } else {
        KeepIdsExact(value, l, d);
        var kept := Links.Keep(MayStay(l, d), Pieces(value));
        PiecesClean(value);
        Links.KeepMembers(MayStay(l, d), Pieces(value));
        ScalarIsOnePiece(kept, l);
        KeptPieces(value, l, d);
      }
    } else {
      KeptIdsExact(kind, value, l, d);
    }
  }

  // ----- the write side's parser and this one -----

  lemma AsciiTrimIsTrim(s: string)
    requires Trimmed(White, Trim(AsciiWhite, s))
    ensures Trim(White, s) == Trim(AsciiWhite, s)
  {
    var i, j := TrimShape(AsciiWhite, s);
    var a, t, b := s[..i], s[i..j], s[j..];
    assert s == a + t + b;
    TrimUnique(White, a, t, b);
  }

  /** Digits with one `#` at most have no blank at either edge. */
  lemma HashDigitsTrimmed(t: string)
    requires t == [] || (StripHash(t) != [] && AllDigits(StripHash(t)))
    ensures Trimmed(White, t)
  {
    if t != [] {
      var digits := StripHash(t);
      assert t[|t| - 1] == digits[|digits| - 1] && Digit(digits[|digits| - 1]);
      assert t[0] == '#' || t[0] == digits[0];
      assert Digit(digits[0]);
    }
  }

  /** The write parser accepts an id exactly when the read parser reads it and only ASCII blanks surround it. */
  lemma ParsersAgreeOnTargets(s: string, id: nat)
    ensures CustomFields.ParseStr(s) == CustomFields.Target(id)
       <==> ScalarBugId(s) == Some(id) && Trim(AsciiWhite, s) == Trim(White, s)
  {
    if CustomFields.ParseStr(s) == CustomFields.Target(id) {
      HashDigitsTrimmed(Trim(AsciiWhite, s));
      AsciiTrimIsTrim(s);
    }
  }

  /** Likewise for values that name no bug. */
  lemma ParsersAgreeOnClear(s: string)
    ensures CustomFields.ParseStr(s) == CustomFields.Clear
       <==> IsClearMarker(s) && Trim(AsciiWhite, s) == Trim(White, s)
  {
    var t := Trim(AsciiWhite, s);
    var digits := StripHash(t);
    if t != [] && digits != [] && AllDigits(digits) {
      DecimalZero(digits);
      assert Decimal(digits) == 0 <==> forall i :: 0 <= i < |digits| ==> digits[i] == '0';
    }
    if CustomFields.ParseStr(s) == CustomFields.Clear {
      HashDigitsTrimmed(t);
      AsciiTrimIsTrim(s);
    }
  }
}
