/**
 * Local URLs inside free text: crates/bugwarden-core/src/guard.rs,
 * `embedded_local_ids`.
 */
module UrlScan {
  import opened Prelude
  import opened Text
  import Links

  // ----- what one occurrence of the base names -----

  /** A character that would make a host merely ending in ours a different host. */
  predicate HostChar(c: char) {
    'a' <= c <= 'z' || 'A' <= c <= 'Z' || '0' <= c <= '9' || c == '.' || c == '-' || c == ':'
  }

  predicate UrlEnd(c: char) { White(c) || c == '"' || c == '\'' || c == '<' || c == '>' }
  predicate Hash(c: char) { c == '#' }
  predicate PairEnd(c: char) { c == '&' || c == ';' }
  predicate Equals(c: char) { c == '=' }

  /** Up to the first character of a class. */
  function Before(p: char -> bool, s: string): string {
    SplitBy(p, s)[0]
  }

  /** The nonzero id a piece's leading digit run spells; bug 0 never exists. */
  function LeadingId(piece: string): Option<nat> {
    var id := DigitsU64(LeadingDigits(piece));
    if id == Some(0) then None else id
  }

  function CommaIds(text: string): set<nat> {
    set piece | piece in Split(text) && LeadingId(piece).Some? :: LeadingId(piece).value
  }

  function PairIds(pair: string): set<nat> {
    var key := Before(Equals, pair);
    if key == "id" && |key| < |pair| then CommaIds(pair[|key| + 1..]) else {}
  }

  /** The ids of a query string: every `id` key, every comma piece of its value. */
  function QueryIds(query: string): set<nat> {
    set pair, id | pair in SplitBy(PairEnd, Before(Hash, query)) && id in PairIds(pair) :: id
  }

  /** After `/show_bug.cgi`: a query, or nothing. */
  function AfterShowBug(after: string): set<nat> {
    match StripPrefix(after, "?")
    case Some(query) => QueryIds(Before(UrlEnd, query))
    case None => {}
  }

  /** After `/rest/bug`: a path of ids, or a query with or without a slash before it. */
  function AfterRestBug(after: string): set<nat> {
    match StripPrefix(after, "/")
    case Some(path) =>
      (match StripPrefix(path, "?")
       case Some(query) => QueryIds(Before(UrlEnd, query))
       case None => CommaIds(path))
    case None => AfterShowBug(after)
  }

  /** The ids named by the text that follows one occurrence of the base. */
  function IdsAfter(rest: string): set<nat> {
    match StripPrefix(rest, "/show_bug.cgi")
    case Some(after) => AfterShowBug(after)
    case None =>
      match StripPrefix(rest, "/rest/bug")
      case Some(after) => AfterRestBug(after)
      case None => {}
  }

  // ----- where the base occurs -----

  predicate Bounded(hay: string, pos: nat)
    requires pos <= |hay|
  {
    pos == 0 || !HostChar(hay[pos - 1])
  }

  predicate Occurs(hay: string, base: string, pos: nat) {
    pos <= |hay| && base <= hay[pos..]
  }

  /** A left-bounded occurrence: the start of a URL of this instance. */
  predicate LocalAt(hay: string, base: string, pos: nat) {
    Occurs(hay, base, pos) && Bounded(hay, pos)
  }

  function LocalPositions(hay: string, base: string): set<nat> {
    set pos: nat | 0 <= pos <= |hay| && LocalAt(hay, base, pos)
  }

  /** The text as the scan sees it: where the base occurs, and where a URL could start. */
  datatype Sites = Sites(size: nat, width: nat, occurs: nat -> bool, bounded: nat -> bool)

  function SitesOf(hay: string, base: string): Sites {
    Sites(|hay|, |base|, (pos: nat) => Occurs(hay, base, pos), (pos: nat) => pos <= |hay| && Bounded(hay, pos))
  }

  /** `hay[at..].find(base)`, as a position in `hay`. */
  function FindFrom(t: Sites, at: nat): (r: Option<nat>)
    ensures r.Some? ==> at <= r.value <= t.size && t.occurs(r.value)
    decreases t.size + 1 - at
  {
    if at > t.size then None else if t.occurs(at) then Some(at) else FindFrom(t, at + 1)
  }

  /** The position found is the first. */
  lemma {:induction false} FindSkipsNone(t: Sites, at: nat, q: nat)
    requires at <= q <= t.size && t.occurs(q)
    ensures FindFrom(t, at).Some? && FindFrom(t, at).value <= q
    decreases t.size + 1 - at
  {
    if !t.occurs(at) {
      FindSkipsNone(t, at + 1, q);
    }
  }

  /** The occurrences the scan stops at: past an unbounded one by a step, past a bounded one by its length. */
  function StopsFrom(t: Sites, at: nat): (r: set<nat>)
    requires t.width > 0
    ensures forall pos :: pos in r ==> at <= pos <= t.size && t.occurs(pos) && t.bounded(pos)
    decreases t.size + 1 - at
  {
    match FindFrom(t, at)
    case None => {}
    case Some(pos) =>
      if t.bounded(pos) then {pos} + StopsFrom(t, pos + t.width) else StopsFrom(t, pos + 1)
  }

  function Stops(hay: string, base: string): set<nat>
    requires base != []
  {
    StopsFrom(SitesOf(hay, base), 0)
  }

  /** What the occurrence at `pos` names. */
  function IdsAt(hay: string, base: string, pos: nat): set<nat> {
    if pos + |base| <= |hay| then IdsAfter(hay[pos + |base|..]) else {}
  }

  /** Reading at a position of some text. */
  type Reading = nat -> set<nat>

  function ReadAt(hay: string, base: string): Reading {
    (pos: nat) => IdsAt(hay, base, pos)
  }

  function NamedAt(read: Reading, positions: set<nat>): set<nat> {
    set pos, id | pos in positions && id in read(pos) :: id
  }

  /** `embedded_local_ids` as a function. */
  function EmbeddedIds(value: string, baseUrl: string): set<nat> {
    var base, hay := Links.BaseOf(baseUrl), AsciiLower(value);
    if base == [] then {} else NamedFrom(SitesOf(hay, base), ReadAt(hay, base), 0)
  }

  lemma NamedOneMore(read: Reading, pos: nat, rest: set<nat>)
    ensures NamedAt(read, {pos} + rest) == read(pos) + NamedAt(read, rest)
  {
    forall id | id in read(pos) + NamedAt(read, rest)
      ensures id in NamedAt(read, {pos} + rest)
    {
      if id in read(pos) {
        assert pos in {pos} + rest;
      } else {
        var p :| p in rest && id in read(p);
        assert p in {pos} + rest;
      }
    }
  }

  /** What the stops from `at` on name, in the order they are read. */
  function NamedFrom(t: Sites, read: Reading, at: nat): set<nat>
    requires t.width > 0
    decreases t.size + 1 - at
  {
    match FindFrom(t, at)
    case None => {}
    case Some(pos) =>
      if t.bounded(pos) then read(pos) + NamedFrom(t, read, pos + t.width) else NamedFrom(t, read, pos + 1)
  }

  lemma {:induction false} NamedByStops(t: Sites, read: Reading, at: nat)
    requires t.width > 0
    ensures NamedFrom(t, read, at) == NamedAt(read, StopsFrom(t, at))
    decreases t.size + 1 - at
  {
    match FindFrom(t, at)
    case None =>
    case Some(pos) =>
      if t.bounded(pos) {
        NamedByStops(t, read, pos + t.width);
        NamedOneMore(read, pos, StopsFrom(t, pos + t.width));
      } else {
        NamedByStops(t, read, pos + 1);
      }
  }

  /** The scan loop over one folded text, `read` saying what a stop names. */
  method Scan(t: Sites, read: Reading) returns (out: set<nat>)
    requires t.width > 0 && !t.occurs(t.size)
    ensures out == NamedFrom(t, read, 0)
  {
    out := {};
    var at := 0;
    while at <= t.size
      invariant out + NamedFrom(t, read, at) == NamedFrom(t, read, 0)
      decreases t.size + 1 - at
    {
      var found := FindFrom(t, at);
      if found.None? {
        break;
      }
      var pos := found.value;
      if !t.bounded(pos) {
        at := pos + 1;
        continue;
      }
      out := out + read(pos);
      at := pos + t.width;
      if at >= t.size {
        break;
      }
    }
  }

  /** `embedded_local_ids`. */
  method EmbeddedLocalIds(value: string, baseUrl: string) returns (out: set<nat>)
    ensures out == EmbeddedIds(value, baseUrl)
  {
    var base := Links.BaseOf(baseUrl);
    if base == [] {
      return {};
    }
    var hay := AsciiLower(value);
    assert !Occurs(hay, base, |hay|);
    out := Scan(SitesOf(hay, base), ReadAt(hay, base));
  }

  // ----- does the scan miss an occurrence? -----

  /** The base overlaps itself, shifted by `k`, at a place a URL could start. */
  predicate BorderAt(base: string, k: nat) {
    0 < k < |base| && base[k..] <= base && !HostChar(base[k - 1])
  }

  predicate Borderless(base: string) {
    forall k :: 0 <= k < |base| ==> !BorderAt(base, k)
  }

  /** In particular a bare host name, port included, has no such overlap. */
  lemma BareHostIsBorderless(base: string)
    requires forall i :: 0 <= i < |base| ==> HostChar(base[i])
    ensures Borderless(base)
  {
  }

  /** Two overlapping occurrences, the second left-bounded, are a self-overlap of the base. */
  lemma OverlapIsBorder(hay: string, base: string, pos: nat, q: nat)
    requires Occurs(hay, base, pos) && LocalAt(hay, base, q) && pos < q < pos + |base|
    ensures BorderAt(base, q - pos)
  {
    var k := q - pos;
    forall i | 0 <= i < |base| - k
      ensures base[k..][i] == base[i]
    {
      assert hay[pos..][k + i] == base[k + i] && hay[q..][i] == base[i];
    }
    assert hay[pos..][k - 1] == base[k - 1];
  }

  /** No stop could step over `q`. */
  ghost predicate Clear(t: Sites, q: nat) {
    forall pos :: 0 <= pos < q && t.occurs(pos) && t.bounded(pos) ==> pos + t.width <= q
  }

  lemma {:induction false} NothingMissedFrom(t: Sites, at: nat, q: nat)
    requires t.width > 0 && Clear(t, q) && at <= q <= t.size && t.occurs(q) && t.bounded(q)
    ensures q in StopsFrom(t, at)
    decreases t.size + 1 - at
  {
    FindSkipsNone(t, at, q);
    var pos := FindFrom(t, at).value;
    if pos < q {
      if t.bounded(pos) {
        NothingMissedFrom(t, pos + t.width, q);
      } else {
        NothingMissedFrom(t, pos + 1, q);
      }
    }
  }

  lemma NothingMissed(hay: string, base: string, q: nat)
    requires base != [] && Borderless(base) && LocalAt(hay, base, q)
    ensures q in Stops(hay, base)
  {
    var t := SitesOf(hay, base);
    forall pos | 0 <= pos < q && t.occurs(pos) && t.bounded(pos)
      ensures pos + t.width <= q
    {
      if q < pos + |base| {
        OverlapIsBorder(hay, base, pos, q);
      }
    }
    NothingMissedFrom(t, 0, q);
  }

  /** A text the scan gets wrong, for any base with such an overlap. */
  lemma OverlapIsMissed(base: string, k: nat)
    requires BorderAt(base, k)
    ensures LocalAt(base[..k] + base, base, k) && k !in Stops(base[..k] + base, base)
  {
    var hay := base[..k] + base;
    assert hay[k..] == base && hay[k - 1] == base[k - 1];
    assert base[k..] == base[..|base| - k];
    assert hay[..|base|] == base[..k] + base[..|base| - k] == base;
    assert hay[0..] == hay;
    var t := SitesOf(hay, base);
    assert FindFrom(t, 0) == Some(0);
    assert StopsFrom(t, 0) == {0} + StopsFrom(t, |base|);
  }

  /**
   * The scan stops at every left-bounded occurrence in every text, exactly for
   * the bases without a self-overlap at a place where a URL could start.
   */
  lemma ScanIsCompleteIff(base: string)
    requires base != []
    ensures (forall hay :: Stops(hay, base) == LocalPositions(hay, base)) <==> Borderless(base)
  {
    if Borderless(base) {
      forall hay
        ensures Stops(hay, base) == LocalPositions(hay, base)
      {
        forall q | q in LocalPositions(hay, base)
          ensures q in Stops(hay, base)
        {
          NothingMissed(hay, base, q);
        }
      }
    } else {
      var k :| 0 <= k < |base| && BorderAt(base, k);
      OverlapIsMissed(base, k);
      var hay := base[..k] + base;
      assert k in LocalPositions(hay, base);
    }
  }

  /** The ids read off a text are those of all its local URLs. */
  lemma EmbeddedIdsExact(value: string, baseUrl: string)
    requires Links.BaseOf(baseUrl) != [] && Borderless(Links.BaseOf(baseUrl))
    ensures var base, hay := Links.BaseOf(baseUrl), AsciiLower(value);
      EmbeddedIds(value, baseUrl) == NamedAt(ReadAt(hay, base), LocalPositions(hay, base))
  {
    var base, hay := Links.BaseOf(baseUrl), AsciiLower(value);
    ScanIsCompleteIff(base);
    NamedByStops(SitesOf(hay, base), ReadAt(hay, base), 0);
  }

  // ----- ids in their places -----

  lemma {:induction false} BeforeKeeps(p: char -> bool, a: string, b: string)
    requires forall i :: 0 <= i < |a| ==> !p(a[i])
    ensures Before(p, a + b) == a + Before(p, b)
  {
    if a == [] {
      assert a + b == b;
    } else {
      assert (a + b)[1..] == a[1..] + b;
      BeforeKeeps(p, a[1..], b);
      assert [a[0]] + (a[1..] + Before(p, b)) == a + Before(p, b);
    }
  }

  /** A digit run followed by anything but a digit. */
  ghost predicate DigitsThen(s: string, d: string) {
    d <= s && d != [] && AllDigits(d) && (|d| < |s| ==> !Digit(s[|d|]))
  }

  /** Cutting at a class of non-digits leaves the leading run in place. */
  lemma CutKeepsDigits(p: char -> bool, lead: string, s: string, d: string)
    requires DigitsThen(s, d)
    requires forall c :: Digit(c) ==> !p(c)
    requires forall i :: 0 <= i < |lead| ==> !p(lead[i])
    ensures exists u :: Before(p, lead + s) == lead + u && DigitsThen(u, d)
  {
    var rest := s[|d|..];
    assert s == d + rest;
    BeforeKeeps(p, d, rest);
    BeforeKeeps(p, lead, s);
    SplitFirst(p, rest);
    var u := d + Before(p, rest);
    assert Before(p, lead + s) == lead + u;
    assert DigitsThen(u, d);
  }

  lemma CommaIdsLead(s: string, d: string, id: nat)
    requires DigitsThen(s, d) && DigitsU64(d) == Some(id) && id != 0
    ensures id in CommaIds(s)
  {
    CutKeepsDigits(Comma, [], s, d);
    var u :| Before(Comma, [] + s) == [] + u && DigitsThen(u, d);
    assert [] + s == s && [] + u == u;
    assert u == Split(s)[0];
    LeadingDigitsUnique(u, |d|);
    assert LeadingDigits(u) == d;
    assert LeadingId(u) == Some(id);
  }

  lemma QueryIdsLead(s: string, d: string, id: nat)
    requires DigitsThen(s, d) && DigitsU64(d) == Some(id) && id != 0
    ensures id in QueryIds(Before(UrlEnd, "id=" + s))
  {
    var lead := "id=";
    CutKeepsDigits(UrlEnd, lead, s, d);
    var u :| Before(UrlEnd, lead + s) == lead + u && DigitsThen(u, d);
    CutKeepsDigits(Hash, lead, u, d);
    var v :| Before(Hash, lead + u) == lead + v && DigitsThen(v, d);
    CutKeepsDigits(PairEnd, lead, v, d);
    var w :| Before(PairEnd, lead + v) == lead + w && DigitsThen(w, d);
    var pair := lead + w;
    assert pair in SplitBy(PairEnd, lead + v);
    SplitAt(Equals, "id", '=', w);
    assert "id" + ['='] + w == pair;
    assert Before(Equals, pair) == "id" && pair[3..] == w;
    CommaIdsLead(w, d, id);
    assert id in PairIds(pair);
  }

  lemma StripOwn(pre: string, s: string)
    ensures StripPrefix(pre + s, pre) == Some(s)
  {
  }

  lemma ShowBugRest(s: string, d: string, id: nat)
    requires DigitsThen(s, d) && DigitsU64(d) == Some(id) && id != 0
    ensures id in IdsAfter("/show_bug.cgi?id=" + s)
  {
    var query := "id=" + s;
    assert "/show_bug.cgi?id=" == "/show_bug.cgi" + "?" + "id=";
    assert "/show_bug.cgi?id=" + s == "/show_bug.cgi" + ("?" + query);
    StripOwn("/show_bug.cgi", "?" + query);
    StripOwn("?", query);
    QueryIdsLead(s, d, id);
    assert AfterShowBug("?" + query) == QueryIds(Before(UrlEnd, query));
  }

  lemma RestBugRest(s: string, d: string, id: nat)
    requires DigitsThen(s, d) && DigitsU64(d) == Some(id) && id != 0
    ensures id in IdsAfter("/rest/bug/" + s)
  {
    assert "/rest/bug/" == "/rest/bug" + "/";
    assert "/rest/bug/" + s == "/rest/bug" + ("/" + s);
    StripOwn("/rest/bug", "/" + s);
    StripOwn("/", s);
    assert s[0] == d[0] && Digit(s[0]);
    assert StripPrefix(s, "?").None?;
    CommaIdsLead(s, d, id);
    assert AfterRestBug("/" + s) == CommaIds(s);
    assert ("/rest/bug/" + s)[1] == 'r' && "/show_bug.cgi"[1] == 's';
    assert StripPrefix("/rest/bug/" + s, "/show_bug.cgi").None?;
  }

  /** Whatever `see_also`'s reading of a rest yields, the scanner's reading yields too, trailing blanks or not. */
  lemma RestAgrees(rest: string, tail: string, id: nat)
    requires Links.IdText(rest).Some? && DigitsU64(LeadingDigits(Links.IdText(rest).value)) == Some(id) && id != 0
    requires tail == [] || !Digit(tail[0])
    ensures id in IdsAfter(rest + tail)
  {
    var text := Links.IdText(rest).value;
    var d, s := LeadingDigits(text), text + tail;
    assert DigitsThen(s, d);
    var query, path := "/show_bug.cgi?id=", "/rest/bug/";
    if query <= rest {
      assert rest + tail == query + s;
      ShowBugRest(s, d, id);
    } else {
      assert rest + tail == path + s;
      RestBugRest(s, d, id);
    }
  }

  lemma FoundAt(hay: string, base: string, p: nat, id: nat)
    requires base != [] && p in Stops(hay, base) && id in IdsAt(hay, base, p)
    ensures id in NamedFrom(SitesOf(hay, base), ReadAt(hay, base), 0)
  {
    NamedByStops(SitesOf(hay, base), ReadAt(hay, base), 0);
    assert id in ReadAt(hay, base)(p);
  }

  /** Without a base the scanner reads nothing, while the whole-value match still reads relative URLs. */
  lemma EmptyBaseReadsNothing(value: string)
    ensures Links.BaseOf("") == [] && EmbeddedIds(value, "") == {}
  {
    assert Trim(White, "") == "";
    assert Links.StripScheme("") == [];
  }
}
