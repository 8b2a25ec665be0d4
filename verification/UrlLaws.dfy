/**
 * What a local URL names, spelt out: crates/bugwarden-core/src/guard.rs,
 * `embedded_local_ids` and `see_also_local_id` as documented.
 */
module UrlLaws {
  import opened Prelude
  import opened Text
  import opened UrlScan
  import opened UrlOverlap
  import Links

  // ----- a number in its place -----

  /** The characters from `a` up to `b` are all the digits there are in a row there. */
  predicate WholeRun(s: string, a: nat, b: nat) {
    a < b <= |s| && AllDigits(s[a..b]) && (b < |s| ==> !Digit(s[b]))
  }

  /** A whole digit run, of a nonzero `u64`, stands at `a`. */
  ghost predicate NumberAt(s: string, a: nat, id: nat) {
    exists b: nat :: WholeRun(s, a, b) && Decimal(s[a..b]) == id && 0 < id <= U64_MAX
  }

  lemma RunIsLeading(s: string, a: nat, b: nat)
    requires WholeRun(s, a, b)
    ensures LeadingDigits(s[a..]) == s[a..b]
  {
    var t := s[a..];
    assert t[..b - a] == s[a..b];
    assert b < |s| ==> t[b - a] == s[b];
    LeadingDigitsUnique(t, b - a);
  }

  lemma LeadingIsRun(s: string, a: nat)
    requires a <= |s| && LeadingDigits(s[a..]) != []
    ensures var b := a + |LeadingDigits(s[a..])|; WholeRun(s, a, b) && LeadingDigits(s[a..]) == s[a..b]
  {
    var t := s[a..];
    var d := LeadingDigits(t);
    assert d == t[..|d|] == s[a..a + |d|];
    assert |d| < |t| ==> t[|d|] == s[a + |d|];
  }

  lemma NumberLeads(s: string, a: nat, id: nat)
    ensures Leads(s, a, id) <==> NumberAt(s, a, id)
  {
    if Leads(s, a, id) {
      LeadingIsRun(s, a);
    }
    if NumberAt(s, a, id) {
      var b: nat :| WholeRun(s, a, b) && Decimal(s[a..b]) == id;
      RunIsLeading(s, a, b);
    }
  }

  // ----- pieces, pairs, queries -----

  /** No separator from `a` up to `b`, and one there unless the text ends. */
  predicate UpToNext(p: char -> bool, s: string, a: nat, b: nat) {
    a <= b <= |s| && (forall k :: a <= k < b ==> !p(s[k])) && (b < |s| ==> p(s[b]))
  }

  lemma OneLater(p: char -> bool, s: string, t: string, a: nat, b: nat)
    requires s != [] && t == s[1..] && UpToNext(p, t, a, b)
    ensures UpToNext(p, s, a + 1, b + 1) && t[a..b] == s[a + 1..b + 1]
  {
    assert b < |t| ==> s[b + 1] == t[b];
    forall k | a + 1 <= k < b + 1
      ensures !p(s[k])
    {
      assert s[k] == t[k - 1];
    }
  }

  /** A later piece is a piece of what follows the first character. */
  lemma LaterPiece(p: char -> bool, s: string, j: nat) returns (i: nat)
    requires s != [] && j < |SplitBy(p, s[1..])| && (p(s[0]) || j > 0)
    ensures 0 < i < |SplitBy(p, s)| && SplitBy(p, s)[i] == SplitBy(p, s[1..])[j]
  {
    i := if p(s[0]) then j + 1 else j;
  }

  lemma FirstPiece(p: char -> bool, s: string) returns (b: nat)
    ensures UpToNext(p, s, 0, b) && SplitBy(p, s)[0] == s[0..b]
  {
    SplitFirst(p, s);
    b := |SplitBy(p, s)[0]|;
    assert SplitBy(p, s)[0] == s[..b] == s[0..b];
  }

  /** The piece that starts at `a`, behind a separator or at the beginning, is one of the split. */
  lemma {:induction false} SplitStarts(p: char -> bool, s: string, a: nat) returns (i: nat, b: nat)
    requires a <= |s| && (a == 0 || p(s[a - 1]))
    ensures i < |SplitBy(p, s)| && UpToNext(p, s, a, b) && SplitBy(p, s)[i] == s[a..b]
    ensures a > 0 ==> i > 0
  {
    if a == 0 {
      i := 0;
      b := FirstPiece(p, s);
    } else {
      var t, j, c := s[1..], 0, 0;
      if a == 1 {
        c := FirstPiece(p, t);
      } else {
        j, c := SplitStarts(p, t, a - 1);
      }
      OneLater(p, s, t, a - 1, c);
      i := LaterPiece(p, s, j);
      b := c + 1;
    }
  }

  /** Behind a comma or at the beginning. */
  predicate PieceStart(s: string, from: nat, a: nat) {
    from <= a <= |s| && (a == from || s[a - 1] == ',')
  }

  lemma CommaIdsExactly(s: string, id: nat)
    ensures id in CommaIds(s) <==> exists a: nat :: PieceStart(s, 0, a) && Leads(s, a, id)
  {
    if id in CommaIds(s) {
      var a := CommaIdsPlaced(s, id);
      assert PieceStart(s, 0, a);
    }
    forall a: nat | PieceStart(s, 0, a) && Leads(s, a, id)
      ensures id in CommaIds(s)
    {
      var i, b := SplitStarts(Comma, s, a);
      StretchLeads(s, a, b, 0, id);
      assert SplitBy(Comma, s)[i] in Split(s) && s[a..b][0..] == s[a..b];
    }
  }

  /** A place in the value of a pair, told from the pair. */
  lemma ValueShift(pair: string, a: nat, id: nat)
    requires "id=" <= pair
    ensures PieceStart(pair[3..], 0, a) && Leads(pair[3..], a, id) <==> PieceStart(pair, 3, a + 3) && Leads(pair, a + 3, id)
  {
    var s := pair[3..];
    if a <= |s| {
      assert s[a..] == pair[a + 3..];
    }
    assert 0 < a <= |s| ==> s[a - 1] == pair[a + 2];
  }

  /** An `id` pair with a number for a piece of its value. */
  ghost predicate PairNames(pair: string, id: nat) {
    "id=" <= pair && exists a: nat :: PieceStart(pair, 3, a) && Leads(pair, a, id)
  }

  lemma PairIdsExactly(pair: string, id: nat)
    ensures id in PairIds(pair) <==> PairNames(pair, id)
  {
    KeyIsId(pair);
    if "id=" <= pair {
      CommaIdsExactly(pair[3..], id);
      if a: nat :| PieceStart(pair[3..], 0, a) && Leads(pair[3..], a, id) {
        ValueShift(pair, a, id);
      }
      if a: nat :| PieceStart(pair, 3, a) && Leads(pair, a, id) {
        ValueShift(pair, a - 3, id);
      }
    }
  }

  lemma KeyIsId(pair: string)
    ensures Before(Equals, pair) == "id" && 2 < |pair| <==> "id=" <= pair
  {
    SplitFirst(Equals, pair);
    if "id=" <= pair {
      assert pair == "id" + ['='] + pair[3..];
      SplitAt(Equals, "id", '=', pair[3..]);
    }
  }

  /** An `id` value of a query, before its end: the number at `a` is a comma piece of the value of a pair that begins at `k`. */
  ghost predicate ValueAt(q: string, k: nat, a: nat) {
    && k + 3 <= a <= |q| && (k == 0 || q[k - 1] == '&' || q[k - 1] == ';') && q[k..k + 3] == "id="
    && (a == k + 3 || q[a - 1] == ',')
    && (forall i :: k <= i < a ==> q[i] != '&' && q[i] != ';')
    && forall i :: 0 <= i < a ==> q[i] != '#'
  }

  ghost predicate QueryNames(q: string, id: nat) {
    exists k: nat, a: nat :: ValueAt(q, k, a) && Leads(q, a, id)
  }

  lemma PairsExactly(s: string, id: nat)
    requires '#' !in s
    ensures (exists pair :: pair in SplitBy(PairEnd, s) && id in PairIds(pair)) <==> QueryNames(s, id)
  {
    if pair :| pair in SplitBy(PairEnd, s) && id in PairIds(pair) {
      PairGives(s, pair, id);
    }
    if k: nat, a: nat :| ValueAt(s, k, a) && Leads(s, a, id) {
      var pair := PairAround(s, k, a, id);
    }
  }

  /** A place in a pair, told from the pair and from the whole query. */
  lemma ValueInPair(s: string, c: nat, e: nat, a: nat)
    requires '#' !in s && c <= e <= |s| && (c == 0 || PairEnd(s[c - 1])) && 3 <= a && c + a <= e
    requires forall x :: c <= x < e ==> !PairEnd(s[x])
    ensures "id=" <= s[c..e] && PieceStart(s[c..e], 3, a) <==> ValueAt(s, c, c + a)
  {
    var pair := s[c..e];
    assert pair[..3] == s[c..c + 3];
    assert pair[a - 1] == s[c + a - 1];
  }

  lemma PairGives(s: string, pair: string, id: nat)
    requires '#' !in s && pair in SplitBy(PairEnd, s) && id in PairIds(pair)
    ensures QueryNames(s, id)
  {
    var i :| 0 <= i < |SplitBy(PairEnd, s)| && SplitBy(PairEnd, s)[i] == pair;
    var c, e := SplitPlace(PairEnd, s, i);
    PairIdsExactly(pair, id);
    var a: nat :| PieceStart(pair, 3, a) && Leads(pair, a, id);
    PieceIsClear(s, pair, c, e);
    ValueInPair(s, c, e, a);
    StretchLeads(s, c, e, a, id);
  }

  lemma PieceIsClear(s: string, pair: string, c: nat, e: nat)
    requires c <= e <= |s| && pair == s[c..e] && pair in SplitBy(PairEnd, s)
    ensures forall x :: c <= x < e ==> !PairEnd(s[x])
  {
    SplitPiecesClear(PairEnd, s, pair);
    assert forall x :: c <= x < e ==> s[x] == pair[x - c];
  }

  lemma PairAround(s: string, k: nat, a: nat, id: nat) returns (pair: string)
    requires '#' !in s && ValueAt(s, k, a) && Leads(s, a, id)
    ensures pair in SplitBy(PairEnd, s) && id in PairIds(pair)
  {
    var i, e := SplitStarts(PairEnd, s, k);
    pair := s[k..e];
    EndsLater(s, k, a, e);
    PairIsNamed(s, k, e, a, id);
    PairIdsExactly(pair, id);
  }

  lemma PairIsNamed(s: string, k: nat, e: nat, a: nat, id: nat)
    requires '#' !in s && ValueAt(s, k, a) && Leads(s, a, id) && a <= e && Stretch(s, k, e)
    requires forall x :: k <= x < e ==> !PairEnd(s[x])
    ensures PairNames(s[k..e], id)
  {
    var pair, at := s[k..e], a - k;
    PieceThere(s, k, e, a);
    assert Leads(pair, at, id) by {
      StretchLeads(s, k, e, at, id);
    }
    assert PieceStart(pair, 3, at) && Leads(pair, at, id);
  }

  lemma PieceThere(s: string, k: nat, e: nat, a: nat)
    requires ValueAt(s, k, a) && a <= e <= |s|
    ensures "id=" <= s[k..e] && PieceStart(s[k..e], 3, a - k)
  {
    var pair := s[k..e];
    assert pair[..3] == s[k..k + 3];
    assert pair[a - k - 1] == s[a - 1];
  }

  lemma EndsLater(s: string, k: nat, a: nat, e: nat)
    requires ValueAt(s, k, a) && k <= e <= |s| && (e < |s| ==> PairEnd(s[e]))
    ensures a <= e
  {
  }

  /** What is read up to an end is read in the whole, and the other way round, as long as it stands before the end. */
  lemma CutQuery(q: string, b: nat, id: nat)
    requires Stretch(q, 0, b)
    ensures QueryNames(q[..b], id) <==> exists k: nat, a: nat :: ValueAt(q, k, a) && a <= b && Leads(q, a, id)
  {
    var s := q[..b];
    if k: nat, a: nat :| ValueAt(s, k, a) && Leads(s, a, id) {
      CutValue(q, b, k, a, id);
      assert ValueAt(q, k, a) && a <= b && Leads(q, a, id);
    }
    if k: nat, a: nat :| ValueAt(q, k, a) && a <= b && Leads(q, a, id) {
      CutValue(q, b, k, a, id);
      assert ValueAt(s, k, a) && Leads(s, a, id);
    }
  }

  lemma CutValue(q: string, b: nat, k: nat, a: nat, id: nat)
    requires Stretch(q, 0, b) && a <= b
    ensures ValueAt(q[..b], k, a) <==> ValueAt(q, k, a)
    ensures Leads(q[..b], a, id) <==> Leads(q, a, id)
  {
    CutPlace(q, b, k, a);
    assert q[..b] == q[0..b];
    StretchLeads(q, 0, b, a, id);
  }

  lemma CutPlace(q: string, b: nat, k: nat, a: nat)
    requires a <= b <= |q|
    ensures ValueAt(q[..b], k, a) <==> ValueAt(q, k, a)
  {
    if k + 3 <= a {
      assert q[..b][k..k + 3] == q[k..k + 3];
    }
  }

  lemma HashCuts(q: string) returns (b: nat)
    ensures Stretch(q, 0, b) && Before(Hash, q) == q[..b] && '#' !in q[..b] && (b < |q| ==> q[b] == '#')
  {
    SplitFirst(Hash, q);
    b := |Before(Hash, q)|;
    assert Before(Hash, q) == q[..b];
  }

  lemma QueryIdsExactly(q: string, id: nat)
    ensures id in QueryIds(q) <==> QueryNames(q, id)
  {
    var b := HashCuts(q);
    PairsExactly(q[..b], id);
    CutQuery(q, b, id);
    if k: nat, a: nat :| ValueAt(q, k, a) && Leads(q, a, id) {
      assert a <= b;
    }
  }

  /** A query ends at the first blank, quote or angle bracket. */
  predicate EndsUrl(c: char) {
    White(c) || c in {'"', '\'', '<', '>'}
  }

  ghost predicate UrlQueryNames(q: string, id: nat) {
    exists k: nat, a: nat :: ValueAt(q, k, a) && NumberAt(q, a, id) && forall i :: 0 <= i < a ==> !EndsUrl(q[i])
  }

  lemma CutIsBeforeEnd(q: string, b: nat, a: nat)
    requires b <= |q| && (forall i :: 0 <= i < b ==> !UrlEnd(q[i])) && (b < |q| ==> UrlEnd(q[b])) && a <= |q|
    ensures a <= b <==> forall i :: 0 <= i < a ==> !EndsUrl(q[i])
  {
  }

  lemma QueryBeforeEnd(q: string, b: nat, id: nat)
    requires b <= |q| && (forall i :: 0 <= i < b ==> !UrlEnd(q[i])) && (b < |q| ==> UrlEnd(q[b]))
    ensures (exists k: nat, a: nat :: ValueAt(q, k, a) && a <= b && Leads(q, a, id)) <==> UrlQueryNames(q, id)
  {
    forall k: nat, a: nat | ValueAt(q, k, a)
      ensures Leads(q, a, id) <==> NumberAt(q, a, id)
      ensures a <= b <==> forall i :: 0 <= i < a ==> !EndsUrl(q[i])
    {
      NumberLeads(q, a, id);
      CutIsBeforeEnd(q, b, a);
    }
  }

  lemma UrlQueryExactly(q: string, id: nat)
    ensures id in QueryIds(Before(UrlEnd, q)) <==> UrlQueryNames(q, id)
  {
    SplitFirst(UrlEnd, q);
    var b := |Before(UrlEnd, q)|;
    assert Before(UrlEnd, q) == q[..b];
    QueryIdsExactly(q[..b], id);
    CutQuery(q, b, id);
    QueryBeforeEnd(q, b, id);
  }

  // ----- what follows the base -----

  ghost predicate PathNames(path: string, id: nat) {
    exists a: nat :: PieceStart(path, 0, a) && NumberAt(path, a, id)
  }

  lemma PathExactly(path: string, id: nat)
    ensures id in CommaIds(path) <==> PathNames(path, id)
  {
    CommaIdsExactly(path, id);
    forall a: nat
      ensures Leads(path, a, id) <==> NumberAt(path, a, id)
    {
      NumberLeads(path, a, id);
    }
  }

  /** The text behind an occurrence of the base is a bug page with a query, or a REST resource with a query or with ids in its path. */
  ghost predicate RestNames(rest: string, id: nat) {
    || ("/show_bug.cgi?" <= rest && UrlQueryNames(rest[14..], id))
    || ("/rest/bug?" <= rest && UrlQueryNames(rest[10..], id))
    || ("/rest/bug/?" <= rest && UrlQueryNames(rest[11..], id))
    || ("/rest/bug/" <= rest && !("/rest/bug/?" <= rest) && PathNames(rest[10..], id))
  }

  lemma ShowBugExactly(after: string, id: nat)
    ensures id in AfterShowBug(after) <==> "?" <= after && UrlQueryNames(after[1..], id)
  {
    if "?" <= after {
      UrlQueryExactly(after[1..], id);
    }
  }

  lemma RestBugExactly(after: string, id: nat)
    ensures id in AfterRestBug(after) <==>
      || ("?" <= after && UrlQueryNames(after[1..], id))
      || ("/?" <= after && UrlQueryNames(after[2..], id))
      || ("/" <= after && !("/?" <= after) && PathNames(after[1..], id))
  {
    ShowBugExactly(after, id);
    if "/" <= after {
      var path := after[1..];
      assert "?" <= path <==> "/?" <= after;
      if "?" <= path {
        assert path[1..] == after[2..];
        UrlQueryExactly(path[1..], id);
      } else {
        PathExactly(path, id);
      }
    }
  }

  lemma Prefixed(rest: string, a: string, b: string)
    ensures a + b <= rest <==> a <= rest && b <= rest[|a|..]
    ensures a + b <= rest ==> rest[|a|..][|b|..] == rest[|a| + |b|..]
  {
    if a <= rest && b <= rest[|a|..] {
      assert rest == a + rest[|a|..] && rest[|a|..] == b + rest[|a|..][|b|..];
      assert rest == (a + b) + rest[|a|..][|b|..];
    }
    if a + b <= rest {
      assert rest == (a + b) + rest[|a + b|..];
      assert rest[..|a|] == a;
      assert rest[|a|..] == b + rest[|a + b|..];
    }
  }

  /** Exactly these ids are named by what follows an occurrence of the base. */
  lemma RestExactly(rest: string, id: nat)
    ensures id in IdsAfter(rest) <==> RestNames(rest, id)
  {
    var page, path := "/show_bug.cgi", "/rest/bug";
    assert "/show_bug.cgi?" == page + "?" && "/rest/bug?" == path + "?";
    assert "/rest/bug/?" == path + "/?" && "/rest/bug/" == path + "/";
    Prefixed(rest, page, "?");
    Prefixed(rest, path, "?");
    Prefixed(rest, path, "/?");
    Prefixed(rest, path, "/");
    if page <= rest {
      NotBoth(rest);
      ShowBugExactly(rest[|page|..], id);
    } else if path <= rest {
      RestBugExactly(rest[|path|..], id);
    }
  }

  lemma NotBoth(rest: string)
    requires "/show_bug.cgi" <= rest
    ensures !("/rest/bug" <= rest)
  {
    assert "/show_bug.cgi"[1] == 's' && "/rest/bug"[1] == 'r';
  }

  // ----- where a local URL is, and what a text names -----

  /** The characters a longer host name could go on with to the left. */
  predicate GoesOnLeft(c: char) {
    'a' <= c <= 'z' || 'A' <= c <= 'Z' || '0' <= c <= '9' || c in {'.', '-', ':'}
  }

  /** A local URL begins at `pos`. */
  ghost predicate UrlAt(hay: string, base: string, pos: nat) {
    pos + |base| <= |hay| && hay[pos..pos + |base|] == base && (pos == 0 || !GoesOnLeft(hay[pos - 1]))
  }

  /** A local URL at `pos` names a bug. */
  ghost predicate UrlNames(hay: string, base: string, pos: nat, id: nat) {
    UrlAt(hay, base, pos) && RestNames(hay[pos + |base|..], id)
  }

  /** A text names a bug when a local URL in it does. */
  ghost predicate TextNames(value: string, base: string, id: nat) {
    SomeUrlNames(AsciiLower(value), base, id)
  }

  ghost predicate SomeUrlNames(hay: string, base: string, id: nat) {
    exists pos: nat :: UrlNames(hay, base, pos, id)
  }

  lemma UrlAtIsLocal(hay: string, base: string, pos: nat)
    ensures UrlAt(hay, base, pos) <==> LocalAt(hay, base, pos)
  {
    if pos + |base| <= |hay| {
      assert hay[pos..][..|base|] == hay[pos..pos + |base|];
    }
  }

  /** Of a URL's beginning at `pos`, what it names. */
  lemma UrlReads(hay: string, base: string, pos: nat, id: nat)
    ensures LocalAt(hay, base, pos) && id in IdsAt(hay, base, pos) <==> UrlNames(hay, base, pos, id)
  {
    UrlAtIsLocal(hay, base, pos);
    if pos + |base| <= |hay| {
      RestExactly(hay[pos + |base|..], id);
    }
  }

  lemma ReadIsNamed(hay: string, base: string, positions: set<nat>, id: nat)
    requires forall pos :: pos in positions ==> pos <= |hay| && LocalAt(hay, base, pos)
    requires id in NamedAt(ReadAt(hay, base), positions)
    ensures SomeUrlNames(hay, base, id)
  {
    var pos :| pos in positions && id in ReadAt(hay, base)(pos);
    UrlReads(hay, base, pos, id);
  }

  lemma NamedIsRead(hay: string, base: string, id: nat)
    requires SomeUrlNames(hay, base, id)
    ensures id in NamedAt(ReadAt(hay, base), LocalPositions(hay, base))
  {
    var pos: nat :| UrlNames(hay, base, pos, id);
    UrlReads(hay, base, pos, id);
    assert pos in LocalPositions(hay, base) && id in ReadAt(hay, base)(pos);
  }

  lemma ExactlyRead(hay: string, base: string, id: nat)
    ensures id in NamedAt(ReadAt(hay, base), LocalPositions(hay, base)) <==> SomeUrlNames(hay, base, id)
  {
    if id in NamedAt(ReadAt(hay, base), LocalPositions(hay, base)) {
      ReadIsNamed(hay, base, LocalPositions(hay, base), id);
    }
    if SomeUrlNames(hay, base, id) {
      NamedIsRead(hay, base, id);
    }
  }

  /** Exactly those are read, for a base that does not overlap itself at a place where a URL could start. */
  lemma TextExactly(value: string, baseUrl: string, id: nat)
    requires Links.BaseOf(baseUrl) != [] && Borderless(Links.BaseOf(baseUrl))
    ensures id in EmbeddedIds(value, baseUrl) <==> TextNames(value, Links.BaseOf(baseUrl), id)
  {
    EmbeddedIdsExact(value, baseUrl);
    ExactlyRead(AsciiLower(value), Links.BaseOf(baseUrl), id);
  }

  /** For any base, nothing else is read. */
  lemma TextNamesNoMore(value: string, baseUrl: string, id: nat)
    requires id in EmbeddedIds(value, baseUrl)
    ensures TextNames(value, Links.BaseOf(baseUrl), id)
  {
    var base, hay := Links.BaseOf(baseUrl), AsciiLower(value);
    NamedByStops(SitesOf(hay, base), ReadAt(hay, base), 0);
    ReadIsNamed(hay, base, Stops(hay, base), id);
  }

  // ----- the whole-value match -----

  /** The text behind the base names a bug in the one of two shapes the match knows, whatever follows the number. */
  ghost predicate MatchNames(rest: string, id: nat) {
    || ("/show_bug.cgi?id=" <= rest && RunAt(rest, 17, id))
    || ("/rest/bug/" <= rest && RunAt(rest, 10, id))
  }

  /** A whole digit run, of any `u64`, stands at `a`. */
  ghost predicate RunAt(s: string, a: nat, id: nat) {
    exists b: nat :: WholeRun(s, a, b) && Decimal(s[a..b]) == id && id <= U64_MAX
  }

  lemma RunLeads(s: string, a: nat, id: nat)
    requires a <= |s|
    ensures DigitsU64(LeadingDigits(s[a..])) == Some(id) <==> RunAt(s, a, id)
  {
    if DigitsU64(LeadingDigits(s[a..])) == Some(id) {
      LeadingIsRun(s, a);
    }
    if RunAt(s, a, id) {
      var b: nat :| WholeRun(s, a, b) && Decimal(s[a..b]) == id;
      RunIsLeading(s, a, b);
    }
  }

  lemma MatchExactly(rest: string, id: nat)
    ensures Links.IdText(rest).Some? && DigitsU64(LeadingDigits(Links.IdText(rest).value)) == Some(id) <==> MatchNames(rest, id)
  {
    NotBothKinds(rest);
    if "/show_bug.cgi?id=" <= rest {
      RunLeads(rest, 17, id);
    } else if "/rest/bug/" <= rest {
      RunLeads(rest, 10, id);
    }
  }

  function Times(n: nat, s: string): string {
    if n == 0 then [] else s + Times(n - 1, s)
  }

  /** `m` is the text without the blanks around it, then any number of `https://`, then any number of `http://`. */
  ghost predicate BareUrl(u: string, m: string) {
    exists n: nat, k: nat ::
      && Stripped(White, u, Times(n, "https://") + (Times(k, "http://") + m))
      && !("https://" <= Times(k, "http://") + m) && !("http://" <= m)
  }

  /** Slashes at the end aside, the text is `base`. */
  ghost predicate SlashesAside(text: string, base: string) {
    (base == [] || base[|base| - 1] != '/') && exists slashes :: text == base + slashes && forall i :: 0 <= i < |slashes| ==> slashes[i] == '/'
  }

  /** The host and path of the instance. */
  ghost predicate HostPath(baseUrl: string, base: string) {
    exists m :: BareUrl(baseUrl, m) && SlashesAside(AsciiLower(m), base)
  }

  /** The base, and right behind it a text that names the bug. */
  ghost predicate GoesOnTo(entry: string, base: string, id: nat) {
    base <= entry && MatchNames(entry[|base|..], id)
  }

  /** A value that names a bug as a whole, schemes and case aside. */
  ghost predicate Matches(value: string, baseUrl: string, id: nat) {
    exists m, base :: BareUrl(value, m) && HostPath(baseUrl, base) && GoesOnTo(AsciiLower(m), base, id)
  }

  lemma {:induction false} PrefixesOff(s: string, pre: string) returns (n: nat)
    requires pre != []
    ensures s == Times(n, pre) + TrimPrefixes(s, pre) && !(pre <= TrimPrefixes(s, pre))
  {
    n := 0;
    if pre <= s {
      var t := s[|pre|..];
      var k := PrefixesOff(t, pre);
      n := k + 1;
      assert s == pre + t;
      assert s == pre + (Times(k, pre) + TrimPrefixes(t, pre)) == Times(n, pre) + TrimPrefixes(t, pre);
    }
  }

  lemma {:induction false} PrefixesUnique(n: nat, pre: string, m: string)
    requires pre != [] && !(pre <= m)
    ensures TrimPrefixes(Times(n, pre) + m, pre) == m
  {
    if n == 0 {
      assert [] + m == m;
    } else {
      var t := Times(n - 1, pre) + m;
      assert Times(n, pre) + m == pre + t && (pre + t)[|pre|..] == t;
      PrefixesUnique(n - 1, pre, m);
    }
  }

  /** The text a URL comes to before its case is folded. */
  function BareOf(u: string): string {
    TrimPrefixes(TrimPrefixes(Trim(White, u), "https://"), "http://")
  }

  lemma BareExactly(u: string, m: string)
    ensures BareUrl(u, m) <==> m == BareOf(u)
  {
    var t := Trim(White, u);
    var n := PrefixesOff(t, "https://");
    var t1 := TrimPrefixes(t, "https://");
    var k := PrefixesOff(t1, "http://");
    TrimIsStripped(White, u, t);
    assert BareUrl(u, BareOf(u));
    if BareUrl(u, m) {
      BareUnique(u, m);
    }
  }

  lemma BareUnique(u: string, m: string)
    requires BareUrl(u, m)
    ensures m == BareOf(u)
  {
    var n: nat, k: nat :|
      && Stripped(White, u, Times(n, "https://") + (Times(k, "http://") + m))
      && !("https://" <= Times(k, "http://") + m) && !("http://" <= m);
    var t1 := Times(k, "http://") + m;
    TrimIsStripped(White, u, Times(n, "https://") + t1);
    PrefixesUnique(n, "https://", t1);
    PrefixesUnique(k, "http://", m);
  }

  lemma AsideExactly(text: string, base: string)
    ensures SlashesAside(text, base) <==> base == TrimEnd(Links.Slash, text)
  {
    var j := TrimEndShape(Links.Slash, text);
    assert text == text[..j] + text[j..];
    forall slashes | text == base + slashes && (forall i :: 0 <= i < |slashes| ==> slashes[i] == '/') && (base == [] || base[|base| - 1] != '/')
      ensures base == TrimEnd(Links.Slash, text)
    {
      TrimEndSuffix(Links.Slash, base, slashes);
    }
  }

  lemma HostExactly(baseUrl: string, base: string)
    ensures HostPath(baseUrl, base) <==> base == Links.BaseOf(baseUrl)
  {
    forall m
      ensures BareUrl(baseUrl, m) <==> m == BareOf(baseUrl)
    {
      BareExactly(baseUrl, m);
    }
    AsideExactly(AsciiLower(BareOf(baseUrl)), base);
  }

  lemma GoesOnExactly(entry: string, base: string, id: nat)
    ensures GoesOnTo(entry, base, id) <==>
      base <= entry && Links.IdText(entry[|base|..]).Some?
      && DigitsU64(LeadingDigits(Links.IdText(entry[|base|..]).value)) == Some(id)
  {
    if base <= entry {
      MatchExactly(entry[|base|..], id);
    }
  }

  /** The whole-value match finds that bug and no other. */
  lemma SeeAlsoExactly(value: string, baseUrl: string, id: nat)
    ensures Links.SeeAlsoId(value, baseUrl) == Some(id) <==> Matches(value, baseUrl, id)
  {
    var m, base := BareOf(value), Links.BaseOf(baseUrl);
    OneMatch(value, baseUrl, id);
    GoesOnExactly(AsciiLower(m), base, id);
  }

  lemma OneMatch(value: string, baseUrl: string, id: nat)
    ensures Matches(value, baseUrl, id) <==> GoesOnTo(AsciiLower(BareOf(value)), Links.BaseOf(baseUrl), id)
  {
    forall m
      ensures BareUrl(value, m) <==> m == BareOf(value)
    {
      BareExactly(value, m);
    }
    forall base
      ensures HostPath(baseUrl, base) <==> base == Links.BaseOf(baseUrl)
    {
      HostExactly(baseUrl, base);
    }
    var m, base := BareOf(value), Links.BaseOf(baseUrl);
    assert BareUrl(value, m) && HostPath(baseUrl, base);
    if GoesOnTo(AsciiLower(m), base, id) {
      assert Matches(value, baseUrl, id);
    }
  }

  lemma NotBothKinds(rest: string)
    ensures !("/show_bug.cgi?id=" <= rest && "/rest/bug/" <= rest)
  {
    assert "/show_bug.cgi?id="[1] == 's' && "/rest/bug/"[1] == 'r';
  }
}
