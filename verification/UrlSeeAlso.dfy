/**
 * The two readings of a URL compared: crates/bugwarden-core/src/guard.rs,
 * `see_also_local_id` against `embedded_local_ids`.
 */
module UrlSeeAlso {
  import opened Prelude
  import opened Text
  import opened UrlScan
  import opened UrlOverlap
  import Links

  const HTTPS := "https://"
  const HTTP := "http://"

  // ----- what comes before a whole-value match -----

  /** Nothing but repeats of the one scheme, then of the other. */
  predicate Schemes(s: string) {
    TrimPrefixes(TrimPrefixes(s, HTTPS), HTTP) == []
  }

  /** Blanks, or half of a scheme's last two slashes, and then whole schemes. */
  predicate LeadIn(w: string) {
    var s := if w != [] && w[0] == '/' then w[1..] else TrimStart(White, w);
    s != [] && Schemes(s)
  }

  /** The base begins with a lead-in and comes again right behind it: a lead-in can start an occurrence of its own. */
  predicate Hiding(base: string) {
    exists k :: 0 < k < |base| && BorderAt(base, k) && LeadIn(base[..k])
  }

  /** In particular not one that begins with no blank, no slash and no scheme. */
  lemma PlainStartHidesNothing(base: string)
    requires base != [] && !White(base[0]) && base[0] != '/' && !(HTTPS <= base) && !(HTTP <= base)
    ensures !Hiding(base)
  {
    forall k | 0 < k < |base| && BorderAt(base, k)
      ensures !LeadIn(base[..k])
    {
      var w := base[..k];
      assert w[0] == base[0];
      assert TrimStart(White, w) == w;
      assert HTTPS <= w ==> HTTPS <= base;
      assert HTTP <= w ==> HTTP <= base;
    }
  }

  // ----- trimming schemes -----

  lemma SchemeChars()
    ensures HTTPS[0] == HTTP[0] == 'h' && HTTPS[4] == 's' && HTTP[4] == ':'
    ensures HTTPS[6] == HTTPS[7] == '/' && HTTP[5] == HTTP[6] == '/'
    ensures forall i :: 0 <= i < 6 ==> HTTPS[i] != '/' && HostChar(HTTPS[i])
    ensures forall i :: 0 <= i < 5 ==> HTTP[i] != '/' && HostChar(HTTP[i])
  {
  }

  /** What is trimmed to nothing goes, whatever follows. */
  lemma {:induction false} TrimAlong(x: string, y: string, pre: string)
    requires pre != [] && TrimPrefixes(x, pre) == []
    ensures TrimPrefixes(x + y, pre) == TrimPrefixes(y, pre)
  {
    if x == [] {
      assert x + y == y;
    } else {
      var n := |pre|;
      assert pre <= x;
      assert (x + y)[n..] == x[n..] + y && pre <= x + y;
      TrimAlong(x[n..], y, pre);
    }
  }

  /** Trimming takes off repeats and stops where there is none. */
  lemma {:induction false} TrimTakes(s: string, pre: string) returns (q: nat)
    requires pre != []
    ensures q <= |s| && TrimPrefixes(s, pre) == s[q..] && TrimPrefixes(s[..q], pre) == [] && !(pre <= s[q..])
  {
    if pre <= s {
      var n := |pre|;
      var r := TrimTakes(s[n..], pre);
      q := n + r;
      assert s[n..][r..] == s[q..] && s[..q] == pre + s[n..][..r];
      assert s[..q][n..] == s[n..][..r] && pre <= s[..q];
    } else {
      q := 0;
      assert s[..0] == [] && s[0..] == s;
    }
  }

  lemma HttpOnly(s: string)
    requires TrimPrefixes(s, HTTP) == []
    ensures Schemes(s)
  {
    SchemeChars();
    if s != [] {
      assert HTTP <= s;
      assert s[4] == HTTP[4] != HTTPS[4];
    }
  }

  /** The schemes trimmed off a text, and what is left. */
  lemma SchemesTaken(m: string) returns (q: nat)
    ensures q <= |m| && TrimPrefixes(TrimPrefixes(m, HTTPS), HTTP) == m[q..] && Schemes(m[..q])
  {
    var a := TrimTakes(m, HTTPS);
    var n := m[a..];
    var b := TrimTakes(n, HTTP);
    q := a + b;
    assert n[b..] == m[q..] && m[..q] == m[..a] + n[..b];
    TrimAlong(m[..a], n[..b], HTTPS);
    HttpOnly(n[..b]);
    assert HTTPS <= n[..b] ==> HTTPS <= n;
  }

  lemma NoSecureScheme(r: string, y: string)
    requires TrimPrefixes(r, HTTP) == [] && y != [] && y[0] != 'h'
    ensures !(HTTPS <= r + y)
  {
    SchemeChars();
    var t := r + y;
    if r == [] {
      assert t == y;
    } else {
      assert HTTP <= r;
      assert t[4] == r[4] == HTTP[4];
    }
  }

  /** Schemes in front of a text that begins with none are what is trimmed off it. */
  lemma SchemesGo(s: string, y: string)
    requires Schemes(s) && y != [] && y[0] != 'h'
    ensures TrimPrefixes(TrimPrefixes(s + y, HTTPS), HTTP) == y
  {
    var a := TrimTakes(s, HTTPS);
    var x, r := s[..a], s[a..];
    assert s == x + r;
    ConcatAssoc(x, r, y);
    TrimAlong(x, r + y, HTTPS);
    NoSecureScheme(r, y);
    TrimAlong(r, y, HTTP);
    assert !(HTTP <= y) by { SchemeChars(); }
  }

  /** One scheme off the front leaves schemes. */
  lemma FirstScheme(s: string) returns (n: nat)
    requires Schemes(s) && s != []
    ensures 1 < n <= |s| && Schemes(s[n..])
    ensures s[n - 2] == s[n - 1] == '/' && forall i :: 0 <= i < n - 2 ==> s[i] != '/' && HostChar(s[i])
  {
    SchemeChars();
    var pre := if HTTPS <= s then HTTPS else HTTP;
    n := |pre|;
    assert pre <= s;
    if !(HTTPS <= s) {
      HttpOnly(s[n..]);
    }
    assert forall i :: 0 <= i < n ==> s[i] == pre[i];
  }

  /** Schemes entered behind a slash: at a scheme, or at a slash with schemes behind it. */
  lemma {:induction false} SchemesTail(s: string, x: nat)
    requires Schemes(s) && 0 < x < |s| && !HostChar(s[x - 1])
    ensures if s[x] == '/' then Schemes(s[x + 1..]) else Schemes(s[x..]) && s[x] == 'h'
    decreases |s|
  {
    var n := FirstScheme(s);
    var t := s[n..];
    if x > n {
      assert t[x - n - 1] == s[x - 1] && t[x - n] == s[x];
      assert t[x - n + 1..] == s[x + 1..] && t[x - n..] == s[x..];
      SchemesTail(t, x - n);
    } else if x == n {
      SchemesBegin(t);
      assert t[0] == s[x];
    }
  }

  lemma SchemesBegin(s: string)
    requires Schemes(s) && s != []
    ensures HTTPS <= s || HTTP <= s
    ensures s[0] == 'h'
  {
    SchemeChars();
  }

  lemma {:induction false} SchemesAreLower(s: string)
    requires Schemes(s)
    ensures AsciiLower(s) == s
    decreases |s|
  {
    if s != [] {
      var pre := if HTTPS <= s then HTTPS else HTTP;
      var t := s[|pre|..];
      if !(HTTPS <= s) {
        HttpOnly(t);
      }
      SchemesAreLower(t);
      assert AsciiLower(HTTPS) == HTTPS && AsciiLower(HTTP) == HTTP;
      assert s == pre + t;
      LowerJoin(pre, t);
    }
  }

  // ----- when the scanner finds what the whole-value match finds -----

  /** Where the whole-value match sits inside the text: behind blanks and schemes, before blanks. */
  lemma WholeValueSpot(value: string) returns (i: nat, p: nat, j: nat)
    ensures i <= p <= j <= |value|
    ensures Links.StripScheme(value) == AsciiLower(value[p..j])
    ensures forall k :: 0 <= k < i ==> White(value[k])
    ensures Schemes(value[i..p]) && (i < j ==> !White(value[i]))
    ensures j < |value| ==> White(value[j])
  {
    i, j := TrimShape(White, value);
    var m := value[i..j];
    var q := SchemesTaken(m);
    p := i + q;
    assert m[q..] == value[p..j] && m[..q] == value[i..p];
  }

  /** What lies between a place where a URL could start and the end of blanks and schemes. */
  lemma LeadInBetween(hay: string, i: nat, p: nat, pos: nat)
    requires i < p <= |hay| && pos < p && Bounded(hay, pos)
    requires (forall k :: 0 <= k < i ==> White(hay[k])) && Schemes(hay[i..p])
    ensures LeadIn(hay[pos..p]) || hay[pos..p] == "/"
  {
    var s, w := hay[i..p], hay[pos..p];
    SchemesBegin(s);
    if pos <= i {
      assert w == hay[pos..i] + s;
      TrimStartPrefix(White, hay[pos..i], s);
      assert w[0] == hay[pos];
      assert pos == i ==> w[0] == s[0];
    } else {
      var x := pos - i;
      assert s[x - 1] == hay[pos - 1] && s[x] == w[0];
      assert s[x..] == w && s[x + 1..] == w[1..];
      SchemesTail(s, x);
      if s[x] == '/' {
        assert w == ['/'] + w[1..];
      } else {
        assert TrimStart(White, w) == w;
      }
    }
  }

  lemma {:induction false} AllSlashes(base: string, i: nat)
    requires BorderAt(base, 1) && base[0] == '/' && i < |base|
    ensures base[i] == '/'
  {
    if i > 0 {
      AllSlashes(base, i - 1);
      assert base[1..][i - 1] == base[i - 1];
    }
  }

  lemma OverlapLeadsIn(hay: string, base: string, i: nat, p: nat, pos: nat)
    requires base != [] && base[|base| - 1] != '/' && i <= p
    requires Occurs(hay, base, pos) && LocalAt(hay, base, p) && Bounded(hay, pos) && pos < p < pos + |base|
    requires (forall k :: 0 <= k < i ==> White(hay[k])) && Schemes(hay[i..p])
    requires i == p && p < |hay| ==> !White(hay[p])
    ensures Hiding(base)
  {
    var k := p - pos;
    OverlapIsBorder(hay, base, pos, p);
    assert hay[pos..p] == base[..k];
    assert base[0] == hay[pos..][0] == hay[pos] && base[0] == hay[p..][0] == hay[p];
    if i < p {
      LeadInBetween(hay, i, p, pos);
      if base[..k] == "/" {
        AllSlashes(base, |base| - 1);
      }
    }
  }

  lemma NothingSteppedOver(hay: string, base: string, i: nat, p: nat)
    requires base != [] && base[|base| - 1] != '/' && !Hiding(base) && i <= p && LocalAt(hay, base, p)
    requires (forall k :: 0 <= k < i ==> White(hay[k])) && Schemes(hay[i..p])
    requires i == p && p < |hay| ==> !White(hay[p])
    ensures p in Stops(hay, base)
  {
    var t := SitesOf(hay, base);
    forall pos | 0 <= pos < p && t.occurs(pos) && t.bounded(pos)
      ensures pos + t.width <= p
    {
      if p < pos + |base| {
        OverlapLeadsIn(hay, base, i, p, pos);
      }
    }
    NothingMissedFrom(t, 0, p);
  }

  lemma SeeAlsoParts(value: string, baseUrl: string, id: nat) returns (rest: string)
    requires Links.SeeAlsoId(value, baseUrl) == Some(id)
    ensures Links.StripScheme(value) == Links.BaseOf(baseUrl) + rest && Names(rest, id)
  {
    rest := Links.StripScheme(value)[|Links.BaseOf(baseUrl)|..];
  }

  /** What follows the base reads as a link to `id`. */
  predicate Names(rest: string, id: nat) {
    Links.IdText(rest).Some? && DigitsU64(LeadingDigits(Links.IdText(rest).value)) == Some(id)
  }

  /** The text up to the match, folded: blanks and schemes. */
  lemma SpotFolded(value: string, i: nat, p: nat, j: nat)
    requires i <= p <= j <= |value| && (forall k :: 0 <= k < i ==> White(value[k])) && Schemes(value[i..p])
    requires i < j ==> !White(value[i])
    ensures var hay := AsciiLower(value);
      && (forall k :: 0 <= k < i ==> White(hay[k])) && Schemes(hay[i..p])
      && (i < j ==> !White(hay[i])) && hay[p..j] == AsciiLower(value[p..j])
  {
    SchemesAreLower(value[i..p]);
    assert AsciiLower(value)[i..p] == AsciiLower(value[i..p]);
  }

  lemma SpotParts(hay: string, p: nat, j: nat, base: string, rest: string)
    requires p <= j <= |hay| && hay[p..j] == base + rest
    ensures hay[p..] == base + (rest + hay[j..])
  {
    assert hay[p..] == hay[p..j] + hay[j..];
  }

  lemma SpotIsRead(hay: string, base: string, p: nat, j: nat, rest: string, id: nat)
    requires p <= j <= |hay| && hay[p..j] == base + rest && Names(rest, id) && id != 0
    requires j < |hay| ==> White(hay[j])
    ensures id in IdsAt(hay, base, p) && Occurs(hay, base, p)
  {
    var tail := hay[j..];
    SpotParts(hay, p, j, base, rest);
    RestAgrees(rest, tail, id);
    assert hay[p + |base|..] == hay[p..][|base|..] == rest + tail;
  }

  lemma BehindSchemes(hay: string, i: nat, p: nat)
    requires i <= p <= |hay| && (forall k :: 0 <= k < i ==> White(hay[k])) && Schemes(hay[i..p])
    ensures Bounded(hay, p)
  {
    if i < p {
      SchemesEnd(hay[i..p]);
      assert hay[i..p][p - i - 1] == hay[p - 1];
    }
  }

  lemma {:induction false} SchemesEnd(s: string)
    requires Schemes(s) && s != []
    ensures s[|s| - 1] == '/'
    decreases |s|
  {
    var n := FirstScheme(s);
    if n < |s| {
      SchemesEnd(s[n..]);
    }
  }

  /**
   * Every nonzero id the whole-value match finds the scanner finds too, unless
   * the base hides its own beginning behind a scheme.
   */
  lemma ScannerFindsSeeAlso(value: string, baseUrl: string, id: nat)
    requires Links.BaseOf(baseUrl) != [] && !Hiding(Links.BaseOf(baseUrl))
    requires Links.SeeAlsoId(value, baseUrl) == Some(id) && id != 0
    ensures id in EmbeddedIds(value, baseUrl)
  {
    var base, hay := Links.BaseOf(baseUrl), AsciiLower(value);
    var i, p, j := WholeValueSpot(value);
    var rest := SeeAlsoParts(value, baseUrl, id);
    SpotFolded(value, i, p, j);
    BaseShape(baseUrl);
    SpotIsRead(hay, base, p, j, rest, id);
    BehindSchemes(hay, i, p);
    NothingSteppedOver(hay, base, i, p);
    FoundAt(hay, base, p, id);
  }

  // ----- and when it does not -----

  /** The base spelt so that trimming takes none of it for a scheme. */
  function Raised(base: string): string {
    if base != [] && base[0] == 'h' then ['H'] + base[1..] else base
  }

  lemma RaisedIsBase(base: string)
    requires AsciiLower(base) == base
    ensures AsciiLower(Raised(base)) == base && |Raised(base)| == |base| && (base != [] ==> Raised(base)[0] != 'h')
  {
  }

  /** What makes the lead-in whole. */
  function Completing(w: string): string {
    if w != [] && w[0] == '/' then "https:/" else []
  }

  lemma HalfTrims(w: string, y: string) returns (s: string)
    requires LeadIn(w) && w != [] && w[0] == '/' && y != [] && !White(y[|y| - 1])
    ensures Schemes(s) && Trim(White, "https:/" + w + y) == s + y
  {
    var rest := w[1..];
    s := HTTPS + rest;
    assert w == "/" + rest && HTTPS == "https:/" + "/";
    assert "https:/" + w == s;
    assert HTTPS[|HTTPS|..] == [];
    assert TrimPrefixes(HTTPS, HTTPS) == [];
    TrimAlong(HTTPS, rest, HTTPS);
    var t := s + y;
    assert t[0] == 'h' && t[|t| - 1] == y[|y| - 1];
    TrimTrimmed(White, t);
  }

  lemma BlanksTrim(w: string, y: string) returns (s: string)
    requires LeadIn(w) && (w == [] || w[0] != '/') && y != [] && !White(y[|y| - 1])
    ensures Schemes(s) && Trim(White, w + y) == s + y
  {
    var i := TrimStartShape(White, w);
    var b := w[..i];
    s := w[i..];
    SchemesBegin(s);
    assert w == b + s;
    var t := s + y;
    assert t[0] == s[0] && t[|t| - 1] == y[|y| - 1];
    ConcatAssoc(b, s, y);
    assert b + t + [] == b + t;
    TrimUnique(White, b, t, []);
  }

  /** A lead-in, made whole, is blanks and schemes. */
  lemma LeadInTrims(w: string, y: string) returns (s: string)
    requires LeadIn(w) && y != [] && !White(y[|y| - 1])
    ensures Schemes(s) && Trim(White, Completing(w) + w + y) == s + y
  {
    if w != [] && w[0] == '/' {
      s := HalfTrims(w, y);
    } else {
      s := BlanksTrim(w, y);
      assert [] + w == w;
    }
  }

  /** The text: the lead-in, which is how the base begins, then the base, then a link. */
  function HiddenText(base: string, k: nat, d: string): string
    requires k <= |base|
  {
    Completing(base[..k]) + base[..k] + (Raised(base) + Link(d))
  }

  lemma HiddenTextIsLower(base: string, k: nat, d: string)
    requires k <= |base| && AsciiLower(base) == base && AllDigits(d)
    ensures AsciiLower(HiddenText(base, k, d)) == Overlapping(Completing(base[..k]), base, k, d)
  {
    var lead, w, y := Completing(base[..k]), base[..k], Raised(base) + Link(d);
    assert AsciiLower("https:/") == "https:/";
    assert AsciiLower(w) == w;
    LowerJoin(lead, w);
    LowerJoin(lead + w, y);
    RaisedIsBase(base);
    LinkIsLower(d);
    LowerJoin(Raised(base), Link(d));
    ConcatAssoc(lead + w, base, Link(d));
  }

  lemma HiddenTextStripped(base: string, k: nat, d: string)
    requires AsciiLower(base) == base && 0 < k < |base| && LeadIn(base[..k]) && AllDigits(d) && d != []
    ensures Links.StripScheme(HiddenText(base, k, d)) == base + Link(d)
  {
    RaisedIsBase(base);
    LinkIsLower(d);
    var y := Raised(base) + Link(d);
    assert y[|y| - 1] == d[|d| - 1] && y[0] == Raised(base)[0];
    var s := LeadInTrims(base[..k], y);
    SchemesGo(s, y);
    LowerJoin(Raised(base), Link(d));
  }

  lemma ReadsBehind(text: string, baseUrl: string, d: string, id: nat)
    requires Links.StripScheme(text) == Links.BaseOf(baseUrl) + Link(d) && DigitsU64(d) == Some(id)
    ensures Links.SeeAlsoId(text, baseUrl) == Some(id)
  {
    var base, entry := Links.BaseOf(baseUrl), Links.StripScheme(text);
    assert base <= entry && entry[|base|..] == Link(d);
    LinkIsRead(d, id);
  }

  lemma WholeValueReads(base: string, baseUrl: string, k: nat, d: string, id: nat)
    requires base == Links.BaseOf(baseUrl) && 0 < k < |base| && LeadIn(base[..k]) && DigitsU64(d) == Some(id)
    ensures Links.SeeAlsoId(HiddenText(base, k, d), baseUrl) == Some(id)
  {
    BaseShape(baseUrl);
    HiddenTextStripped(base, k, d);
    ReadsBehind(HiddenText(base, k, d), baseUrl, d, id);
  }

  lemma LinkIsRead(d: string, id: nat)
    requires DigitsU64(d) == Some(id)
    ensures Links.IdText(Link(d)) == Some(d) && LeadingDigits(d) == d
  {
    assert Link(d)[1] == 'r' && "/show_bug.cgi?id="[1] == 's';
    assert Link(d)[10..] == d;
    assert d[..|d|] == d;
    LeadingDigitsUnique(d, |d|);
  }

  lemma NoStopBefore(base: string, k: nat, d: string)
    requires 0 < k < |base|
    ensures var lead := Completing(base[..k]);
      var hay := Overlapping(lead, base, k, d);
      Bounded(hay, |lead|) && forall q :: 0 <= q < |lead| ==> !LocalAt(hay, base, q)
  {
    var lead := Completing(base[..k]);
    var hay := Overlapping(lead, base, k, d);
    if lead != [] {
      assert forall i :: 0 <= i < 7 ==> hay[i] == "https:/"[i];
      forall q | 0 <= q < |lead|
        ensures !LocalAt(hay, base, q)
      {
        if Occurs(hay, base, q) {
          assert hay[q..][0] == base[0];
        }
      }
    }
  }

  /** For such a base, a link the whole-value match reads and the scanner does not. */
  lemma HidingLosesABug(baseUrl: string, k: nat) returns (value: string, id: nat)
    requires var base := Links.BaseOf(baseUrl);
      0 < k < |base| <= MAX_STRING && BorderAt(base, k) && LeadIn(base[..k])
    ensures Links.SeeAlsoId(value, baseUrl) == Some(id) && id != 0 && id !in EmbeddedIds(value, baseUrl)
  {
    var base, d := Links.BaseOf(baseUrl), "";
    BaseShape(baseUrl);
    id, d := FreshId(base, k);
    value := HiddenText(base, k, d);
    WholeValueReads(base, baseUrl, k, d, id);
    HiddenTextIsLower(base, k, d);
    NoStopBefore(base, k, d);
    LinkIsPassedOver(Completing(base[..k]), base, k, d, id);
  }

  /** The scanner reads what the whole-value match reads off this text. */
  ghost predicate FindsWhatMatches(value: string, baseUrl: string) {
    forall id :: Links.SeeAlsoId(value, baseUrl) == Some(id) && id != 0 ==> id in EmbeddedIds(value, baseUrl)
  }

  /** The two readings agree on every text exactly for the bases that hide nothing. */
  lemma ScannerFindsSeeAlsoIff(baseUrl: string)
    requires Links.BaseOf(baseUrl) != [] && |Links.BaseOf(baseUrl)| <= MAX_STRING
    ensures (forall value :: FindsWhatMatches(value, baseUrl)) <==> !Hiding(Links.BaseOf(baseUrl))
  {
    var base := Links.BaseOf(baseUrl);
    if Hiding(base) {
      var k :| 0 < k < |base| && BorderAt(base, k) && LeadIn(base[..k]);
      var value, id := HidingLosesABug(baseUrl, k);
      assert !FindsWhatMatches(value, baseUrl);
    } else {
      forall value
        ensures FindsWhatMatches(value, baseUrl)
      {
        forall id | Links.SeeAlsoId(value, baseUrl) == Some(id) && id != 0
          ensures id in EmbeddedIds(value, baseUrl)
        {
          ScannerFindsSeeAlso(value, baseUrl, id);
        }
      }
    }
  }

  lemma CapitalScheme(url: string, rest: string)
    requires rest == "://https" && url == "HTTPS" + rest
    ensures Links.StripScheme(url) == AsciiLower(url)
  {
    assert url[0] == 'H' && url[|url| - 1] == 's';
    TrimTrimmed(White, url);
    SchemeChars();
  }

  lemma CapitalFolded(url: string, rest: string)
    requires rest == "://https" && url == "HTTPS" + rest
    ensures AsciiLower(url) == "https" + rest
  {
    assert AsciiLower("HTTPS") == "https" && AsciiLower(rest) == rest;
    LowerJoin("HTTPS", rest);
  }

  lemma RepeatsItself(base: string, rest: string)
    requires rest == "://https" && base == "https" + rest
    ensures Hiding(base)
  {
    assert base[8..] == base[..5] && base[7] == '/';
    var w := base[..8];
    assert w == HTTPS;
    assert w[|HTTPS|..] == [] && TrimPrefixes(w, HTTPS) == [];
    assert w[0] == 'h' && TrimStart(White, w) == w;
    assert BorderAt(base, 8) && LeadIn(base[..8]);
  }

  /** Such a base: one that begins with a scheme in capitals, and repeats what follows. */
  lemma AHidingBase()
    ensures Links.BaseOf("HTTPS" + "://https") == "https" + "://https" && Hiding("https" + "://https")
  {
    var rest := "://https";
    var url, base := "HTTPS" + rest, "https" + rest;
    CapitalScheme(url, rest);
    CapitalFolded(url, rest);
    assert base[|base| - 1] == 's';
    BaseAsGiven(url, base);
    RepeatsItself(base, rest);
  }

  /** A host serving from a path of the same name hides nothing. */
  lemma APlainBase()
    ensures !Hiding("bugzilla/bugzilla")
  {
    var base := "bugzilla/bugzilla";
    SchemeChars();
    assert base[0] == 'b';
    PlainStartHidesNothing(base);
  }
}
