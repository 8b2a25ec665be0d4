/**
 * Bases that overlap themselves: crates/bugwarden-core/src/guard.rs,
 * `embedded_local_ids`, and the links it passes over for them.
 */
module UrlOverlap {
  import opened Prelude
  import opened Text
  import opened UrlScan
  import Links

  // ----- where in a text its ids are read -----

  /** The digit run at `a` spells `id`. */
  predicate Leads(s: string, a: nat, id: nat) {
    a <= |s| && LeadingId(s[a..]) == Some(id)
  }

  /** Right after a comma or an equals sign. */
  predicate AfterSign(s: string, a: nat) {
    0 < a <= |s| && (s[a - 1] == ',' || s[a - 1] == '=')
  }

  /** A stretch of `s` that does not end inside a digit run. */
  predicate Stretch(s: string, c: nat, e: nat) {
    c <= e <= |s| && (e < |s| ==> !Digit(s[e]))
  }

  lemma StretchLeads(s: string, c: nat, e: nat, a: nat, id: nat)
    requires Stretch(s, c, e) && c + a <= e
    ensures Leads(s[c..e], a, id) <==> Leads(s, c + a, id)
  {
    var t := s[c..e];
    var d := LeadingDigits(t[a..]);
    assert t[a..] == s[c + a..e];
    var rest := s[c + a..];
    assert d == rest[..|d|];
    assert |d| < |rest| ==> rest[|d|] == s[c + a + |d|];
    assert |d| < |t[a..]| ==> t[a..][|d|] == rest[|d|];
    LeadingDigitsUnique(rest, |d|);
  }

  lemma TailSlice(s: string, a: nat, b: nat)
    requires s != [] && a <= b < |s|
    ensures s[1..][a..b] == s[a + 1..b + 1]
  {
  }

  /** Where the `i`th piece of a split sits. */
  lemma {:induction false} SplitPlace(p: char -> bool, s: string, i: nat) returns (a: nat, b: nat)
    requires i < |SplitBy(p, s)|
    ensures a <= b <= |s| && SplitBy(p, s)[i] == s[a..b]
    ensures if i == 0 then a == 0 else a > 0 && p(s[a - 1])
    ensures b < |s| ==> p(s[b])
  {
    a, b := 0, 0;
    if s != [] {
      var t := s[1..];
      if p(s[0]) {
        if i > 0 {
          a, b := SplitPlace(p, t, i - 1);
          TailSlice(s, a, b);
          assert a > 0 ==> s[a] == t[a - 1];
          a, b := a + 1, b + 1;
        }
      } else {
        var c, e := SplitPlace(p, t, i);
        TailSlice(s, c, e);
        a, b := if i == 0 then 0 else c + 1, e + 1;
        if i == 0 {
          assert [s[0]] + t[0..e] == s[0..e + 1];
        } else {
          assert s[c] == t[c - 1];
        }
        assert e < |t| ==> t[e] == s[b];
      }
    }
  }

  predicate DigitFree(p: char -> bool) {
    forall c :: Digit(c) ==> !p(c)
  }

  lemma PieceStretch(p: char -> bool, s: string, piece: string) returns (a: nat, b: nat)
    requires piece in SplitBy(p, s) && DigitFree(p)
    ensures Stretch(s, a, b) && piece == s[a..b] && (a > 0 ==> p(s[a - 1]))
  {
    var i :| 0 <= i < |SplitBy(p, s)| && SplitBy(p, s)[i] == piece;
    a, b := SplitPlace(p, s, i);
  }

  lemma BeforeStretch(p: char -> bool, s: string) returns (b: nat)
    requires DigitFree(p)
    ensures Stretch(s, 0, b) && Before(p, s) == s[0..b]
  {
    var a;
    a, b := SplitPlace(p, s, 0);
  }

  lemma CommaIdsPlaced(s: string, id: nat) returns (a: nat)
    requires id in CommaIds(s)
    ensures Leads(s, a, id) && (a == 0 || s[a - 1] == ',')
  {
    var piece :| piece in Split(s) && LeadingId(piece) == Some(id);
    var b;
    a, b := PieceStretch(Comma, s, piece);
    assert piece[0..] == piece;
    StretchLeads(s, a, b, 0, id);
  }

  /** What is read inside a stretch is read in the whole. */
  lemma Inside(s: string, c: nat, e: nat, a: nat, id: nat)
    requires Stretch(s, c, e) && Leads(s[c..e], a, id) && AfterSign(s[c..e], a)
    ensures Leads(s, c + a, id) && AfterSign(s, c + a)
  {
    StretchLeads(s, c, e, a, id);
    assert s[c..e][a - 1] == s[c + a - 1];
  }

  lemma PairIdsPlaced(pair: string, id: nat) returns (a: nat)
    requires id in PairIds(pair)
    ensures Leads(pair, a, id) && AfterSign(pair, a)
  {
    SplitFirst(Equals, pair);
    var s := pair[3..];
    a := CommaIdsPlaced(s, id);
    assert s[a..] == pair[a + 3..];
    assert a > 0 ==> s[a - 1] == pair[a + 2];
    a := a + 3;
  }

  /** What is read in a piece is read in the whole. */
  lemma InsidePiece(p: char -> bool, s: string, piece: string, at: nat, id: nat) returns (a: nat)
    requires piece in SplitBy(p, s) && DigitFree(p)
    requires Leads(piece, at, id) && AfterSign(piece, at)
    ensures Leads(s, a, id) && AfterSign(s, a)
  {
    var c, e := PieceStretch(p, s, piece);
    Inside(s, c, e, at, id);
    a := c + at;
  }

  lemma PairsPlaced(s: string, pair: string, id: nat) returns (a: nat)
    requires pair in SplitBy(PairEnd, s) && id in PairIds(pair)
    ensures Leads(s, a, id) && AfterSign(s, a)
  {
    var at := PairIdsPlaced(pair, id);
    a := InsidePiece(PairEnd, s, pair, at, id);
  }

  lemma QueryIdsPlaced(query: string, id: nat) returns (a: nat)
    requires id in QueryIds(query)
    ensures Leads(query, a, id) && AfterSign(query, a)
  {
    var s := Before(Hash, query);
    var pair :| pair in SplitBy(PairEnd, s) && id in PairIds(pair);
    a := PairsPlaced(s, pair, id);
    var b := BeforeStretch(Hash, query);
    Inside(query, 0, b, a, id);
  }

  lemma ShowBugPlaced(after: string, id: nat) returns (a: nat)
    requires id in AfterShowBug(after)
    ensures Leads(after, a, id) && AfterSign(after, a)
  {
    var query := StripPrefix(after, "?").value;
    a := QueryIdsPlaced(Before(UrlEnd, query), id);
    var b := BeforeStretch(UrlEnd, query);
    Inside(query, 0, b, a, id);
    Shifted("?", query, a, id);
    a := a + 1;
  }

  /** Leading by some text moves the places along. */
  lemma Shifted(pre: string, s: string, a: nat, id: nat)
    ensures Leads(s, a, id) ==> Leads(pre + s, |pre| + a, id)
    ensures AfterSign(s, a) ==> AfterSign(pre + s, |pre| + a)
  {
    if a <= |s| {
      assert (pre + s)[|pre| + a..] == s[a..];
    }
  }

  lemma RestBugPlaced(after: string, id: nat) returns (a: nat)
    requires id in AfterRestBug(after)
    ensures Leads(after, a, id) && (AfterSign(after, a) || (a == 1 && after[0] == '/'))
  {
    if StripPrefix(after, "/").Some? {
      var path := StripPrefix(after, "/").value;
      if StripPrefix(path, "?").Some? {
        a := ShowBugPlaced(path, id);
      } else {
        a := CommaIdsPlaced(path, id);
      }
      Shifted("/", path, a, id);
      a := a + 1;
    } else {
      a := ShowBugPlaced(after, id);
    }
  }

  /** Every id read after an occurrence is a digit run in its place there: behind a sign, or right behind `/rest/bug/`. */
  lemma IdsAfterPlaced(rest: string, id: nat) returns (a: nat)
    requires id in IdsAfter(rest)
    ensures Leads(rest, a, id)
    ensures AfterSign(rest, a) || (a == 10 && "/rest/bug/" <= rest)
  {
    var query, path := "/show_bug.cgi", "/rest/bug";
    if StripPrefix(rest, query).Some? {
      var after := StripPrefix(rest, query).value;
      a := ShowBugPlaced(after, id);
      Shifted(query, after, a, id);
      a := a + |query|;
    } else {
      var after := StripPrefix(rest, path).value;
      a := RestBugPlaced(after, id);
      Shifted(path, after, a, id);
      if a == 1 && after[0] == '/' {
        assert "/rest/bug/" == path + "/" && after[..1] == "/";
        assert rest == path + after;
      }
      a := a + |path|;
    }
  }

  // ----- an id none of a text's digit runs spells -----

  /** The ids spelt by the digit runs of a text, from every place in them. */
  function Heads(s: string): set<nat> {
    if s == [] then {}
    else (if LeadingId(s).Some? then {LeadingId(s).value} else {}) + Heads(s[1..])
  }

  lemma {:induction false} HeadsAll(s: string, a: nat, id: nat)
    requires Leads(s, a, id) && a < |s|
    ensures id in Heads(s)
  {
    if a > 0 {
      assert s[1..][a - 1..] == s[a..];
      HeadsAll(s[1..], a - 1, id);
    } else {
      assert s[0..] == s;
    }
  }

  lemma {:induction false} HeadsFew(s: string)
    ensures |Heads(s)| <= |s|
  {
    if s != [] {
      HeadsFew(s[1..]);
    }
  }

  lemma {:induction false} FreshNumber(taken: set<nat>, m: nat) returns (n: nat)
    requires |taken| < m
    ensures 1 <= n <= m && n !in taken
  {
    if m in taken {
      n := FreshNumber(taken - {m}, m - 1);
    } else {
      n := m;
    }
  }

  function Show(n: nat): string {
    var last := ('0' as nat + n % 10) as char;
    if n < 10 then [last] else Show(n / 10) + [last]
  }

  lemma {:induction false} ShownIsRead(n: nat)
    ensures Show(n) != [] && AllDigits(Show(n)) && Decimal(Show(n)) == n
  {
    var d := Show(n);
    if n >= 10 {
      ShownIsRead(n / 10);
      assert d[..|d| - 1] == Show(n / 10);
    } else {
      assert d[..0] == [];
    }
  }

  // ----- a text whose link is passed over -----

  /** The stop at `at` is the first when no bounded occurrence comes before it. */
  lemma {:induction false} FirstStop(t: Sites, from: nat, at: nat)
    requires t.width > 0 && from <= at <= t.size && t.occurs(at) && t.bounded(at)
    requires forall q :: from <= q < at && t.occurs(q) ==> !t.bounded(q)
    ensures StopsFrom(t, from) == {at} + StopsFrom(t, at + t.width)
    decreases t.size + 1 - from
  {
    FindSkipsNone(t, from, at);
    var pos := FindFrom(t, from).value;
    if pos < at {
      FirstStop(t, pos + 1, at);
    }
  }

  function Link(d: string): string {
    "/rest/bug/" + d
  }

  /** What the overlap leaves of the base behind its first occurrence. */
  function Rest(base: string, k: nat): string
    requires k <= |base|
  {
    base[|base| - k..]
  }

  /** The base twice over, sharing all but `k` characters, and a link to a bug. */
  function Overlapping(lead: string, base: string, k: nat, d: string): string
    requires k <= |base|
  {
    lead + base[..k] + base + Link(d)
  }

  lemma Doubled(base: string, k: nat)
    requires BorderAt(base, k)
    ensures base[..k] + base == base + Rest(base, k)
  {
    assert base[k..] == base[..|base| - k];
    assert base == base[..|base| - k] + Rest(base, k);
    assert base[..k] + base[k..] == base;
    ConcatAssoc(base[..k], base[k..], Rest(base, k));
  }

  lemma OverlapParts(lead: string, base: string, k: nat, d: string)
    requires BorderAt(base, k)
    ensures var hay, n := Overlapping(lead, base, k, d), |lead|;
      && |hay| == n + k + |base| + 10 + |d|
      && hay[n..] == base + (Rest(base, k) + Link(d))
      && hay[n + k..] == base + Link(d) && hay[n + k - 1] == base[k - 1]
      && hay[n + k + |base|..] == Link(d)
  {
    var hay, n := Overlapping(lead, base, k, d), |lead|;
    Doubled(base, k);
    ConcatAssoc(lead, base[..k], base);
    ConcatAssoc(lead, base[..k] + base, Link(d));
    assert hay[n..] == base + Rest(base, k) + Link(d);
    ConcatAssoc(base, Rest(base, k), Link(d));
  }

  lemma LinkChar(d: string, m: nat)
    requires m < |Link(d)|
    ensures Link(d)[m] == if m < 10 then "/rest/bug/"[m] else d[m - 10]
  {
  }

  /** In the link's own text a digit run follows neither sign. */
  lemma LinkHasNoSign(d: string, m: nat)
    requires AllDigits(d) && m < |Link(d)| && Digit(Link(d)[m])
    ensures m >= 10 && !AfterSign(Link(d), m)
  {
    var path := "/rest/bug/";
    assert forall i :: 0 <= i < |path| ==> !Digit(path[i]);
    LinkChar(d, m);
    if m > 0 {
      LinkChar(d, m - 1);
    }
  }

  lemma DigitAtLead(s: string, a: nat, id: nat)
    requires Leads(s, a, id)
    ensures a < |s| && Digit(s[a])
  {
    var d := LeadingDigits(s[a..]);
    assert d != [];
    assert d[0] == s[a..][0];
  }

  /** A digit run in the link, with anything before it, is well past the beginning and behind no sign. */
  lemma RunInLink(x: string, d: string, a: nat, id: nat)
    requires AllDigits(d) && Leads(x + Link(d), a, id) && a >= |x|
    ensures a >= |x| + 10 && !AfterSign(x + Link(d), a)
  {
    var s, m := x + Link(d), a - |x|;
    DigitAtLead(s, a, id);
    assert s[a] == Link(d)[m];
    LinkHasNoSign(d, m);
    assert s[a - 1] == Link(d)[m - 1];
  }

  lemma RunInTail(d: string, m: nat, a: nat, id: nat)
    requires AllDigits(d) && m <= |Link(d)| && Leads(Link(d)[m..], a, id)
    ensures !AfterSign(Link(d)[m..], a)
  {
    var s := Link(d)[m..];
    DigitAtLead(s, a, id);
    assert s[a] == Link(d)[m + a];
    LinkHasNoSign(d, m + a);
    assert a > 0 ==> s[a - 1] == Link(d)[m + a - 1];
  }

  /** What the first stop reads, it reads off the rest of the base. */
  lemma FirstReads(x: string, d: string, id: nat)
    requires x != [] && AllDigits(d) && id in IdsAfter(x + Link(d))
    ensures id in Heads(x)
  {
    var s := x + Link(d);
    var a := IdsAfterPlaced(s, id);
    if a >= |x| {
      RunInLink(x, d, a, id);
    } else {
      assert s[0..|x|] == x && s[|x|] == '/';
      StretchLeads(s, 0, |x|, a, id);
      HeadsAll(x, a, id);
    }
  }

  /** The link's text does not begin again further on. */
  lemma NotAgain(d: string, m: nat)
    requires AllDigits(d) && 0 < m <= |Link(d)|
    ensures !("/rest/bug/" <= Link(d)[m..])
  {
    var path, s := "/rest/bug/", Link(d)[m..];
    assert forall i :: 0 < i < |path| - 1 ==> path[i] != '/' || path[i + 1] != 'r';
    if |s| >= 2 {
      LinkChar(d, m);
      LinkChar(d, m + 1);
      assert s[0] == Link(d)[m] && s[1] == Link(d)[m + 1];
    }
  }

  /** A later stop is past the link's beginning, and reads nothing. */
  lemma LaterReadsNothing(d: string, m: nat, id: nat)
    requires AllDigits(d) && 0 < m <= |Link(d)|
    ensures id !in IdsAfter(Link(d)[m..])
  {
    NotAgain(d, m);
    if id in IdsAfter(Link(d)[m..]) {
      var a := IdsAfterPlaced(Link(d)[m..], id);
      RunInTail(d, m, a, id);
    }
  }

  /** The link is local and names its bug. */
  lemma LinkIsLocal(lead: string, base: string, k: nat, d: string, id: nat)
    requires BorderAt(base, k) && DigitsU64(d) == Some(id) && id != 0
    ensures var hay, at := Overlapping(lead, base, k, d), |lead| + k; LocalAt(hay, base, at) && id in IdsAt(hay, base, at)
  {
    OverlapParts(lead, base, k, d);
    assert d[0..] == d;
    RestBugRest(d, d, id);
  }

  /** Nor is it read from any stop, when nothing else in the text spells its number. */
  lemma LinkIsPassedOver(lead: string, base: string, k: nat, d: string, id: nat)
    requires BorderAt(base, k) && AllDigits(d) && id !in Heads(Rest(base, k))
    requires var hay := Overlapping(lead, base, k, d);
      Bounded(hay, |lead|) && forall q :: 0 <= q < |lead| ==> !LocalAt(hay, base, q)
    ensures var hay := Overlapping(lead, base, k, d); id !in NamedFrom(SitesOf(hay, base), ReadAt(hay, base), 0)
  {
    var hay, n := Overlapping(lead, base, k, d), |lead|;
    OverlapParts(lead, base, k, d);
    PassedOver(hay, base, k, d, n, id);
  }

  lemma PassedOver(hay: string, base: string, k: nat, d: string, n: nat, id: nat)
    requires BorderAt(base, k) && AllDigits(d) && id !in Heads(Rest(base, k))
    requires n + k + |base| <= |hay| && hay[n..] == base + (Rest(base, k) + Link(d))
    requires hay[n + k + |base|..] == Link(d)
    requires Bounded(hay, n) && forall q :: 0 <= q < n ==> !LocalAt(hay, base, q)
    ensures id !in NamedFrom(SitesOf(hay, base), ReadAt(hay, base), 0)
  {
    var t, read := SitesOf(hay, base), ReadAt(hay, base);
    forall q | 0 <= q < n && t.occurs(q)
      ensures !t.bounded(q)
    {
      assert !LocalAt(hay, base, q);
    }
    FirstStop(t, 0, n);
    NamedByStops(t, read, 0);
    forall q | q in StopsFrom(t, 0)
      ensures id !in read(q)
    {
      StopReads(hay, base, k, d, n, q, id);
    }
  }

  lemma StopReads(hay: string, base: string, k: nat, d: string, n: nat, q: nat, id: nat)
    requires BorderAt(base, k) && AllDigits(d) && id !in Heads(Rest(base, k))
    requires n + k + |base| <= |hay| && hay[n..] == base + (Rest(base, k) + Link(d))
    requires hay[n + k + |base|..] == Link(d)
    requires q == n || q >= n + |base|
    ensures id !in IdsAt(hay, base, q)
  {
    if q == n {
      assert hay[n + |base|..] == hay[n..][|base|..] == Rest(base, k) + Link(d);
      if id in IdsAt(hay, base, q) {
        FirstReads(Rest(base, k), d, id);
      }
    } else if q + |base| <= |hay| {
      var m := q - n - k;
      assert hay[q + |base|..] == hay[n + k + |base|..][m..];
      LaterReadsNothing(d, m, id);
    }
  }

  // ----- exactly which bases -----

  /** No string is longer than this: the largest `isize`. */
  const MAX_STRING: nat := 0x7FFF_FFFF_FFFF_FFFF

  lemma {:induction false} TrimEndLower(s: string)
    requires AsciiLower(s) == s
    ensures AsciiLower(TrimEnd(Links.Slash, s)) == TrimEnd(Links.Slash, s)
    ensures TrimEnd(Links.Slash, s) != [] ==> TrimEnd(Links.Slash, s)[|TrimEnd(Links.Slash, s)| - 1] != '/'
  {
    if s != [] && s[|s| - 1] == '/' {
      var t := s[..|s| - 1];
      assert forall i :: 0 <= i < |t| ==> LowerChar(t[i]) == AsciiLower(s)[i];
      assert AsciiLower(t) == t;
      TrimEndLower(t);
    }
  }

  lemma LowerTwice(s: string)
    ensures AsciiLower(AsciiLower(s)) == AsciiLower(s)
  {
  }

  /** A base is in lower case and ends in no slash. */
  lemma BaseShape(baseUrl: string)
    ensures var base := Links.BaseOf(baseUrl); AsciiLower(base) == base && (base != [] ==> base[|base| - 1] != '/')
  {
    LowerTwice(TrimPrefixes(TrimPrefixes(Trim(White, baseUrl), "https://"), "http://"));
    TrimEndLower(Links.StripScheme(baseUrl));
  }

  lemma LowerJoin(a: string, b: string)
    ensures AsciiLower(a + b) == AsciiLower(a) + AsciiLower(b)
  {
  }

  lemma LinkIsLower(d: string)
    requires AllDigits(d)
    ensures AsciiLower(Link(d)) == Link(d)
  {
    assert AsciiLower("/rest/bug/") == "/rest/bug/";
    assert AsciiLower(d) == d;
    LowerJoin("/rest/bug/", d);
  }

  lemma OverlappingIsLower(base: string, k: nat, d: string)
    requires k <= |base| && AsciiLower(base) == base && AllDigits(d)
    ensures AsciiLower(Overlapping([], base, k, d)) == Overlapping([], base, k, d)
  {
    LinkIsLower(d);
    assert AsciiLower(base[..k]) == base[..k];
    LowerJoin(base[..k], base);
    LowerJoin(base[..k] + base, Link(d));
    assert [] + base[..k] == base[..k];
  }

  /** A number in range that the rest of the base does not spell. */
  lemma FreshId(base: string, k: nat) returns (id: nat, d: string)
    requires k <= |base| <= MAX_STRING
    ensures DigitsU64(d) == Some(id) && id != 0 && id !in Heads(Rest(base, k))
  {
    HeadsFew(Rest(base, k));
    id := FreshNumber(Heads(Rest(base, k)), U64_MAX);
    d := Show(id);
    ShownIsRead(id);
  }

  /** The ids read off a text are those of all its local URLs. */
  ghost predicate ReadExactly(value: string, baseUrl: string) {
    var base, hay := Links.BaseOf(baseUrl), AsciiLower(value);
    EmbeddedIds(value, baseUrl) == NamedAt(ReadAt(hay, base), LocalPositions(hay, base))
  }

  /** For a base that overlaps itself, a text one of whose local URLs goes unread. */
  lemma OverlapLosesABug(baseUrl: string, k: nat) returns (value: string)
    requires BorderAt(Links.BaseOf(baseUrl), k) && |Links.BaseOf(baseUrl)| <= MAX_STRING
    ensures !ReadExactly(value, baseUrl)
  {
    var base := Links.BaseOf(baseUrl);
    BaseShape(baseUrl);
    var id, d := FreshId(base, k);
    value := Overlapping([], base, k, d);
    OverlappingIsLower(base, k, d);
    LinkIsLocal([], base, k, d, id);
    LinkIsPassedOver([], base, k, d, id);
    assert k in LocalPositions(value, base) && id in ReadAt(value, base)(k);
    assert id in NamedAt(ReadAt(value, base), LocalPositions(value, base));
  }

  /**
   * Every text is read exactly if and only if the base has no overlap with
   * itself at a place where a URL could start.
   */
  lemma ReadExactlyIff(baseUrl: string)
    requires Links.BaseOf(baseUrl) != [] && |Links.BaseOf(baseUrl)| <= MAX_STRING
    ensures (forall value :: ReadExactly(value, baseUrl)) <==> Borderless(Links.BaseOf(baseUrl))
  {
    var base := Links.BaseOf(baseUrl);
    if Borderless(base) {
      forall value
        ensures ReadExactly(value, baseUrl)
      {
        EmbeddedIdsExact(value, baseUrl);
      }
    } else {
      var k :| 0 <= k < |base| && BorderAt(base, k);
      var value := OverlapLosesABug(baseUrl, k);
    }
  }

  // ----- a server this happens to -----

  lemma PlainTrim(base: string)
    requires base == "bugzilla/bugzilla"
    ensures Links.StripScheme("https://" + base) == AsciiLower(base)
  {
    var a, url := "https://", "https://" + base;
    assert url[0] == 'h' && url[|url| - 1] == 'a';
    assert Trim(White, url) == url;
    assert url[|a|..] == base && base[0] == 'b' && a[0] == 'h' && "http://"[0] == 'h';
    assert TrimPrefixes(base, a) == base && TrimPrefixes(base, "http://") == base;
  }

  lemma PlainLower()
    ensures AsciiLower("bugzilla") == "bugzilla" && AsciiLower("/") == "/"
  {
  }

  lemma PlainIsLower(base: string)
    requires base == "bugzilla/bugzilla"
    ensures AsciiLower(base) == base && base != [] && base[|base| - 1] != '/'
  {
    var name := "bugzilla";
    assert base == name + "/" + name;
    PlainLower();
    LowerJoin(name, "/");
    LowerJoin(name + "/", name);
    assert base[16] == 'a';
  }

  lemma BaseAsGiven(baseUrl: string, base: string)
    requires Links.StripScheme(baseUrl) == base && base != [] && base[|base| - 1] != '/'
    ensures Links.BaseOf(baseUrl) == base
  {
  }

  lemma PlainBase(base: string)
    requires base == "bugzilla/bugzilla"
    ensures Links.BaseOf("https://" + base) == base && AsciiLower(base) == base
  {
    PlainTrim(base);
    PlainIsLower(base);
    BaseAsGiven("https://" + base, base);
  }

  lemma {:induction false} HeadsOfNoDigits(s: string)
    requires forall i :: 0 <= i < |s| ==> !Digit(s[i])
    ensures Heads(s) == {}
  {
    if s != [] {
      HeadsOfNoDigits(s[1..]);
    }
  }

  lemma PlainOverlap(base: string)
    requires base == "bugzilla/bugzilla"
    ensures BorderAt(base, 9) && Heads(Rest(base, 9)) == {}
  {
    assert base[9..] == base[..8] && base[8] == '/';
    HeadsOfNoDigits(Rest(base, 9));
  }

  /** A host `bugzilla` serving from the path `/bugzilla`: a link to bug 7 that is passed over. */
  lemma OverlapHidesABug()
    ensures var base := "bugzilla/bugzilla";
      var value := base[..9] + base + "/rest/bug/7";
      && Links.BaseOf("https://" + base) == base && AsciiLower(value) == value
      && LocalAt(value, base, 9) && 7 in IdsAt(value, base, 9)
      && 7 !in EmbeddedIds(value, "https://" + base)
  {
    var base := "bugzilla/bugzilla";
    PlainBase(base);
    PlainOverlap(base);
    assert "7"[..0] == [] && Decimal("7") == 7;
    OverlappingIsLower(base, 9, "7");
    LinkIsLocal([], base, 9, "7", 7);
    LinkIsPassedOver([], base, 9, "7", 7);
    assert Overlapping([], base, 9, "7") == base[..9] + base + "/rest/bug/7" by {
      assert Link("7") == "/rest/bug/7";
      assert [] + base[..9] == base[..9];
    }
  }
}
