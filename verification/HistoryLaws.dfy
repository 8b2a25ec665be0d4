/**
 * What a scrub leaves of a value, a change, an entry and a response, field by
 * field: crates/bugwarden-core/src/guard.rs, `scrub_history` and
 * `scrub_update_changes` as documented.
 */
module HistoryLaws {
  import opened Prelude
  import opened Text
  import opened LinkLaws
  import CustomFields
  import FieldLaws
  import HistoryText
  import Links
  import UrlLaws
  import UrlScan

  type Kinds = map<string, CustomFields.CustomFieldKind>

  // ----- a list of ids in a text -----

  /** The pieces one after the other, with `sep` between them. */
  function Glued(pieces: seq<string>, sep: string): string {
    if pieces == [] then []
    else if |pieces| == 1 then pieces[0]
    else pieces[0] + sep + Glued(pieces[1..], sep)
  }

  ghost predicate CommaParts(s: string, raw: seq<string>) {
    raw != [] && Glued(raw, ",") == s && forall q :: q in raw ==> CommaFree(q)
  }

  lemma {:induction false} GluedSplits(raw: seq<string>)
    requires raw != [] && forall q :: q in raw ==> CommaFree(q)
    ensures Split(Glued(raw, ",")) == raw
  {
    var first, rest := raw[0], raw[1..];
    assert first in raw && raw == [first] + rest;
    if rest == [] {
      SplitNone(Comma, first);
    } else {
      var tail := Glued(rest, ",");
      GluedSplits(rest);
      SplitAt(Comma, first, ',', tail);
      assert Glued(raw, ",") == first + [','] + tail;
    }
  }

  lemma {:induction false} SplitGlues(s: string)
    ensures Glued(Split(s), ",") == s
  {
    if s != [] {
      var r := Split(s[1..]);
      SplitGlues(s[1..]);
      assert s == [s[0]] + s[1..];
      if s[0] == ',' {
        assert ([[]] + r)[1..] == r;
      } else {
        var first := [s[0]] + r[0];
        assert ([first] + r[1..])[1..] == r[1..];
      }
    }
  }

  lemma PartsExactly(s: string, raw: seq<string>)
    ensures CommaParts(s, raw) <==> raw == Split(s)
  {
    SplitGlues(s);
    forall q | q in Split(s)
      ensures CommaFree(q)
    {
      SplitPiecesClear(Comma, s, q);
    }
    if CommaParts(s, raw) {
      GluedSplits(raw);
    }
  }

  lemma {:induction false} JoinGlues(pieces: seq<string>)
    ensures Join(pieces) == Glued(pieces, ", ")
  {
    if |pieces| > 1 {
      JoinGlues(pieces[1..]);
    }
  }

  /** Digits, with one plus in front at most and one hash before that. */
  predicate Writes(piece: string, digits: string) {
    || piece == digits || piece == "#" + digits || piece == "+" + digits || piece == "#+" + digits
  }

  ghost predicate Spells(piece: string, id: nat) {
    id <= U64_MAX && exists digits :: digits != [] && AllDigits(digits) && Decimal(digits) == id && Writes(piece, digits)
  }

  /** A piece names the number it spells, or else the bug it is a URL of. */
  ghost predicate PieceNames(piece: string, baseUrl: string, id: nat) {
    Spells(piece, id) || (SpellsNone(piece) && UrlLaws.Matches(piece, baseUrl, id))
  }

  ghost predicate SpellsNone(piece: string) {
    forall n: nat :: !Spells(piece, n)
  }

  lemma SpellsExactly(piece: string, id: nat)
    ensures Spells(piece, id) <==> ParseU64(StripHash(piece)) == Some(id)
  {
    if ParseU64(StripHash(piece)) == Some(id) {
      var t := StripHash(piece);
      var digits := if t[0] == '+' then t[1..] else t;
      assert t == digits || t == "+" + digits;
      assert piece == t || piece == "#" + t;
      assert "#" + ("+" + digits) == "#+" + digits;
      assert Writes(piece, digits);
    }
    if Spells(piece, id) {
      var digits :| digits != [] && AllDigits(digits) && Decimal(digits) == id && Writes(piece, digits);
      assert Digit(digits[0]);
      assert piece == digits || piece[1..] == digits || (piece[0] == '#' && piece[1..] == "+" + digits);
    }
  }

  lemma SpellsNoneExactly(piece: string)
    ensures SpellsNone(piece) <==> ParseU64(StripHash(piece)).None?
  {
    forall n: nat
      ensures Spells(piece, n) <==> ParseU64(StripHash(piece)) == Some(n)
    {
      SpellsExactly(piece, n);
    }
  }

  lemma IdOfPiece(piece: string, baseUrl: string)
    ensures HistoryText.PieceId(piece, HistoryText.LocalTo(baseUrl)) ==
      if ParseU64(StripHash(piece)).Some? then ParseU64(StripHash(piece)) else Links.SeeAlsoId(piece, baseUrl)
  {
  }

  lemma PieceExactly(piece: string, baseUrl: string, id: nat)
    ensures HistoryText.PieceId(piece, HistoryText.LocalTo(baseUrl)) == Some(id) <==> PieceNames(piece, baseUrl, id)
  {
    IdOfPiece(piece, baseUrl);
    SpellsExactly(piece, id);
    SpellsNoneExactly(piece);
    UrlLaws.SeeAlsoExactly(piece, baseUrl, id);
  }

  /** A piece that says something, and nothing of a bug outside the set. */
  ghost predicate MayShow(piece: string, baseUrl: string, d: set<nat>) {
    piece != [] && NamesWithin(piece, baseUrl, d)
  }

  ghost predicate NamesWithin(piece: string, baseUrl: string, d: set<nat>) {
    forall id :: PieceNames(piece, baseUrl, id) ==> id in d
  }

  ghost function Showable(baseUrl: string, d: set<nat>): string -> bool {
    (piece: string) => MayShow(piece, baseUrl, d)
  }

  /** Each part without the blanks around it. */
  ghost predicate EachStripped(raw: seq<string>, parts: seq<string>) {
    |parts| == |raw| && forall i :: 0 <= i < |raw| ==> Stripped(White, raw[i], parts[i])
  }

  /** The parts between commas, blanks aside, that may be shown, in their order and with `, ` between them. */
  ghost predicate ListLeft(was: string, now: string, baseUrl: string, d: set<nat>) {
    exists raw, parts, left ::
      CommaParts(was, raw) && EachStripped(raw, parts) && Sifted(Showable(baseUrl, d), parts, left) && now == Glued(left, ", ")
  }

  function TrimAll(raw: seq<string>): (r: seq<string>)
    ensures |r| == |raw| && forall i :: 0 <= i < |raw| ==> r[i] == Trim(White, raw[i])
  {
    seq(|raw|, i requires 0 <= i < |raw| => Trim(White, raw[i]))
  }

  lemma StrippedExactly(raw: seq<string>, parts: seq<string>)
    ensures EachStripped(raw, parts) <==> parts == TrimAll(raw)
  {
    forall i | 0 <= i < |raw| && |parts| == |raw|
      ensures Stripped(White, raw[i], parts[i]) <==> parts[i] == Trim(White, raw[i])
    {
      TrimIsStripped(White, raw[i], parts[i]);
    }
  }

  lemma NamesWithinExactly(piece: string, baseUrl: string, d: set<nat>, found: Option<nat>)
    requires found == HistoryText.PieceId(piece, HistoryText.LocalTo(baseUrl))
    ensures NamesWithin(piece, baseUrl, d) <==> found.None? || found.value in d
  {
    if found.Some? {
      PieceExactly(piece, baseUrl, found.value);
    }
    forall id: nat | PieceNames(piece, baseUrl, id)
      ensures found == Some(id)
    {
      PieceExactly(piece, baseUrl, id);
    }
  }

  lemma MayShowExactly(piece: string, baseUrl: string, d: set<nat>)
    ensures MayShow(piece, baseUrl, d) <==> piece != [] && HistoryText.MayStay(HistoryText.LocalTo(baseUrl), d)(piece)
  {
    NamesWithinExactly(piece, baseUrl, d, HistoryText.PieceId(piece, HistoryText.LocalTo(baseUrl)));
  }

  /** Dropping empty pieces first comes to not showing them. */
  lemma {:induction false} EmptyGo(p: string -> bool, q: string -> bool, raw: seq<string>)
    requires forall piece :: q(piece) <==> piece != [] && p(piece)
    ensures Links.Keep(p, TrimEach(raw)) == Links.Keep(q, TrimAll(raw))
  {
    if raw != [] {
      var t, rest := Trim(White, raw[0]), TrimEach(raw[1..]);
      EmptyGo(p, q, raw[1..]);
      assert TrimAll(raw)[1..] == TrimAll(raw[1..]);
      if t == [] {
        assert TrimEach(raw) == rest;
      } else {
        assert ([t] + rest)[1..] == rest;
      }
    }
  }

  lemma ListLeftExactly(was: string, now: string, baseUrl: string, d: set<nat>)
    ensures ListLeft(was, now, baseUrl, d) <==> now == HistoryText.KeepIds(was, HistoryText.LocalTo(baseUrl), d)
  {
    var p := HistoryText.MayStay(HistoryText.LocalTo(baseUrl), d);
    ghost var q := Showable(baseUrl, d);
    forall piece
      ensures q(piece) <==> piece != [] && p(piece)
    {
      MayShowExactly(piece, baseUrl, d);
    }
    var raw := Split(was);
    EmptyGo(p, q, raw);
    ghost var kept := Links.Keep(q, TrimAll(raw));
    JoinGlues(kept);
    SiftedParts(was, kept, q);
    if ListLeft(was, now, baseUrl, d) {
      var raw, parts, left :|
        CommaParts(was, raw) && EachStripped(raw, parts) && Sifted(Showable(baseUrl, d), parts, left) && now == Glued(left, ", ");
      PartsExactly(was, raw);
      StrippedExactly(raw, parts);
      SiftedIsKeep(q, parts, left);
    }
  }

  lemma SiftedParts(was: string, kept: seq<string>, q: string -> bool)
    requires kept == Links.Keep(q, TrimAll(Split(was)))
    ensures CommaParts(was, Split(was)) && EachStripped(Split(was), TrimAll(Split(was))) && Sifted(q, TrimAll(Split(was)), kept)
  {
    PartsExactly(was, Split(was));
    StrippedExactly(Split(was), TrimAll(Split(was)));
    KeepSifts(q, TrimAll(Split(was)));
  }

  // ----- one id in a text -----

  /** Blanks aside, the text is these digits, with a hash in front or none. */
  ghost predicate IsDigits(s: string, digits: string) {
    digits != [] && AllDigits(digits) && (Stripped(White, s, digits) || Stripped(White, s, "#" + digits))
  }

  ghost predicate ScalarNames(s: string, id: nat) {
    0 < id <= U64_MAX && exists digits :: IsDigits(s, digits) && Decimal(digits) == id
  }

  /** Blank, or zeros: a field that was cleared. */
  ghost predicate ClearText(s: string) {
    || (forall i :: 0 <= i < |s| ==> White(s[i]))
    || exists digits :: IsDigits(s, digits) && forall i :: 0 <= i < |digits| ==> digits[i] == '0'
  }

  lemma DigitsExactly(s: string, digits: string)
    ensures IsDigits(s, digits) <==> digits != [] && AllDigits(digits) && digits == StripHash(Trim(White, s))
  {
    var t := Trim(White, s);
    TrimIsStripped(White, s, digits);
    TrimIsStripped(White, s, "#" + digits);
    if digits != [] && AllDigits(digits) {
      assert Digit(digits[0]);
      if digits == StripHash(t) {
        assert t == digits || t == "#" + digits;
      }
      if t == "#" + digits {
        assert StripHash(t) == digits;
      }
    }
  }

  lemma ScalarExactly(s: string, id: nat)
    ensures HistoryText.ScalarBugId(s) == Some(id) <==> ScalarNames(s, id)
  {
    var given := StripHash(Trim(White, s));
    DigitsExactly(s, given);
    forall digits
      ensures IsDigits(s, digits) <==> digits != [] && AllDigits(digits) && digits == given
    {
      DigitsExactly(s, digits);
    }
  }

  lemma ClearExactly(s: string)
    ensures HistoryText.IsClearMarker(s) <==> ClearText(s)
  {
    var given := StripHash(Trim(White, s));
    forall digits
      ensures IsDigits(s, digits) <==> digits != [] && AllDigits(digits) && digits == given
    {
      DigitsExactly(s, digits);
    }
    BlankExactly(s);
  }

  lemma BlankExactly(s: string)
    ensures Trim(White, s) == [] <==> forall i :: 0 <= i < |s| ==> White(s[i])
  {
    TrimIsStripped(White, s, []);
    if forall i :: 0 <= i < |s| ==> White(s[i]) {
      assert s == s + [] + [] && All(White, s) && All(White, []);
      assert Stripped(White, s, []);
    } else {
      var i, j := TrimShape(White, s);
    }
  }

  /** Whole, or nothing: an id of the set stays and so does a cleared field; what is neither stays where the field may be of another kind. */
  ghost predicate ScalarLeft(was: string, now: string, strict: bool, d: set<nat>) {
    now == if ClearText(was) || (exists id :: id in d && ScalarNames(was, id)) || (!strict && forall id: nat :: !ScalarNames(was, id))
           then was else ""
  }

  lemma ScalarLeftExactly(was: string, now: string, strict: bool, d: set<nat>)
    ensures ScalarLeft(was, now, strict, d) <==> now == HistoryText.KeepScalar(was, strict, d)
  {
    ClearExactly(was);
    HistoryText.ScalarOfTrimmed(was);
    forall id: nat
      ensures HistoryText.ScalarBugId(was) == Some(id) <==> ScalarNames(was, id)
    {
      ScalarExactly(was, id);
    }
  }

  // ----- which fields name bugs, and how -----

  /** Custom fields are of the kind they are known to be of, if any. */
  predicate Of(field: string, kinds: Kinds, kind: CustomFields.CustomFieldKind) {
    CustomKey(field) && field in kinds && kinds[field] == kind
  }

  predicate ListNamed(field: string, kinds: Kinds) {
    ListKey(field) || DuplicateKey(field) || field == "see_also" || Of(field, kinds, CustomFields.BugList)
  }

  /** A custom field of no known kind. */
  predicate Doubtful(field: string, kinds: Kinds) {
    CustomKey(field) && (field !in kinds || kinds[field] == CustomFields.Unknown)
  }

  /** A field whose texts can name bugs. */
  predicate Naming(field: string, kinds: Kinds) {
    field == "url" || ListNamed(field, kinds) || Of(field, kinds, CustomFields.BugId) || Doubtful(field, kinds)
  }

  /** What a text of a field is left as. */
  ghost predicate TextLeft(field: string, kinds: Kinds, was: string, now: string, baseUrl: string, d: set<nat>) {
    if field == "url" then now == if UrlScan.EmbeddedIds(was, baseUrl) <= d then was else ""
    else if ListNamed(field, kinds) then ListLeft(was, now, baseUrl, d)
    else ScalarLeft(was, now, Of(field, kinds, CustomFields.BugId), d)
  }

  /** In an update a custom field of no known kind is taken for a list, unless it was cleared. */
  ghost predicate UpdateTextLeft(field: string, kinds: Kinds, was: string, now: string, baseUrl: string, d: set<nat>) {
    if Doubtful(field, kinds) && !ClearText(was) then ListLeft(was, now, baseUrl, d)
    else TextLeft(field, kinds, was, now, baseUrl, d)
  }

  /** The bugs a text of a field is read to name. */
  ghost predicate TextNames(field: string, kinds: Kinds, text: string, baseUrl: string, id: nat) {
    if field == "url" then id in UrlScan.EmbeddedIds(text, baseUrl)
    else if ListNamed(field, kinds) then ListNames(text, baseUrl, id)
    else ScalarNames(text, id)
  }

  /** A piece between commas, blanks aside, names the bug. */
  ghost predicate ListNames(text: string, baseUrl: string, id: nat) {
    exists raw, piece :: FieldLaws.CommaPiece(text, raw) && Stripped(White, raw, piece) && piece != [] && PieceNames(piece, baseUrl, id)
  }

  lemma {:induction false} TrimEachHas(parts: seq<string>, piece: string)
    ensures piece in TrimEach(parts) <==> exists raw :: raw in parts && Trim(White, raw) == piece && piece != []
  {
    if parts != [] {
      TrimEachHas(parts[1..], piece);
      assert parts == [parts[0]] + parts[1..];
    }
  }

  lemma ListReadExactly(text: string, baseUrl: string, id: nat)
    ensures id in HistoryText.ListIds(text, HistoryText.LocalTo(baseUrl)) <==> ListNames(text, baseUrl, id)
  {
    var l := HistoryText.LocalTo(baseUrl);
    if id in HistoryText.ListIds(text, l) {
      var piece :| piece in Pieces(text) && HistoryText.PieceId(piece, l) == Some(id);
      TrimEachHas(Split(text), piece);
      var raw :| raw in Split(text) && Trim(White, raw) == piece;
      FieldLaws.PiecesExactly(text, raw);
      TrimIsStripped(White, raw, piece);
      PieceExactly(piece, baseUrl, id);
    }
    if ListNames(text, baseUrl, id) {
      var raw, piece :|
        FieldLaws.CommaPiece(text, raw) && Stripped(White, raw, piece) && piece != [] && PieceNames(piece, baseUrl, id);
      FieldLaws.PiecesExactly(text, raw);
      TrimIsStripped(White, raw, piece);
      TrimEachHas(Split(text), piece);
      PieceExactly(piece, baseUrl, id);
    }
  }

  function HowNamed(field: string, kinds: Kinds): HistoryText.HistoryLinks {
    if field == "url" then HistoryText.UrlScalar
    else if ListNamed(field, kinds) then HistoryText.List
    else HistoryText.CustomScalar(Of(field, kinds, CustomFields.BugId))
  }

  /** The kinds, as the field's own name and what is known of it say. */
  lemma KindExactly(field: string, kinds: Kinds)
    ensures HistoryText.LinkKind(field, kinds).Some? <==> Naming(field, kinds)
    ensures Naming(field, kinds) ==> HistoryText.LinkKind(field, kinds).value == HowNamed(field, kinds)
  {
    LinkLaws.Kinds(field);
    OneKind(field);
    ListKeys(field);
    assert "cf_" <= field <==> CustomKey(field);
  }

  lemma DoubtfulIsScalar(field: string, kinds: Kinds)
    ensures Doubtful(field, kinds) <==> HistoryText.LinkKind(field, kinds) == Some(HistoryText.CustomScalar(false))
  {
    KindExactly(field, kinds);
    OneKind(field);
  }

  /** What is kept of a text of this kind is what the law of the kind says. */
  lemma LeftByKind(kind: HistoryText.HistoryLinks, was: string, now: string, baseUrl: string, d: set<nat>)
    ensures now == HistoryText.KeepIn(kind, was, HistoryText.LocalTo(baseUrl), d) <==>
      match kind
      case UrlScalar => now == if UrlScan.EmbeddedIds(was, baseUrl) <= d then was else ""
      case List => ListLeft(was, now, baseUrl, d)
      case CustomScalar(strict) => ScalarLeft(was, now, strict, d)
  {
    match kind
    case UrlScalar =>
    case List => ListLeftExactly(was, now, baseUrl, d);
    case CustomScalar(strict) => ScalarLeftExactly(was, now, strict, d);
  }

  lemma TextLeftExactly(field: string, kinds: Kinds, was: string, now: string, baseUrl: string, d: set<nat>)
    requires Naming(field, kinds)
    ensures HistoryText.LinkKind(field, kinds).Some?
    ensures TextLeft(field, kinds, was, now, baseUrl, d)
       <==> now == HistoryText.KeepIn(HistoryText.LinkKind(field, kinds).value, was, HistoryText.LocalTo(baseUrl), d)
  {
    KindExactly(field, kinds);
    LeftByKind(HowNamed(field, kinds), was, now, baseUrl, d);
  }

  lemma UpdateTextLeftExactly(field: string, kinds: Kinds, was: string, now: string, baseUrl: string, d: set<nat>)
    requires Naming(field, kinds)
    ensures HistoryText.LinkKind(field, kinds).Some?
    ensures UpdateTextLeft(field, kinds, was, now, baseUrl, d)
       <==> now == HistoryText.KeepInUpdate(HistoryText.LinkKind(field, kinds).value, was, HistoryText.LocalTo(baseUrl), d)
  {
    DoubtfulIsScalar(field, kinds);
    ClearExactly(was);
    ListLeftExactly(was, now, baseUrl, d);
    TextLeftExactly(field, kinds, was, now, baseUrl, d);
  }

  /** A URL text stays exactly when every local URL in it names bugs of the set, for a base that does not overlap itself. */
  lemma UrlTextExactly(kinds: Kinds, was: string, now: string, baseUrl: string, d: set<nat>)
    requires Links.BaseOf(baseUrl) != [] && UrlScan.Borderless(Links.BaseOf(baseUrl))
    ensures TextLeft("url", kinds, was, now, baseUrl, d)
       <==> now == if forall id :: UrlLaws.TextNames(was, Links.BaseOf(baseUrl), id) ==> id in d then was else ""
  {
    forall id: nat
      ensures id in UrlScan.EmbeddedIds(was, baseUrl) <==> UrlLaws.TextNames(was, Links.BaseOf(baseUrl), id)
    {
      UrlLaws.TextExactly(was, baseUrl, id);
    }
  }

  lemma TextReadExactly(field: string, kinds: Kinds, text: string, baseUrl: string, id: nat)
    requires Naming(field, kinds)
    ensures HistoryText.LinkKind(field, kinds).Some?
    ensures id in HistoryText.IdsIn(HistoryText.LinkKind(field, kinds).value, text, HistoryText.LocalTo(baseUrl))
       <==> TextNames(field, kinds, text, baseUrl, id)
  {
    KindExactly(field, kinds);
    ListReadExactly(text, baseUrl, id);
    ScalarExactly(text, id);
  }
}
