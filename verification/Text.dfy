/**
 * The string operations of Rust's standard library the guard is written with,
 * over sequences of Unicode scalar values.
 */
module Text {
  import opened Prelude

  // ----- character classes -----

  /** `char::is_whitespace`: the Unicode White_Space property. */
  predicate White(c: char) {
    var n := c as int;
    0x09 <= n <= 0x0D || n == 0x20 || n == 0x85 || n == 0xA0 || n == 0x1680 || 0x2000 <= n <= 0x200A
    || n == 0x2028 || n == 0x2029 || n == 0x202F || n == 0x205F || n == 0x3000
  }

  /** `char::is_ascii_whitespace`, which leaves U+000B out. */
  predicate AsciiWhite(c: char) {
    c == ' ' || c == '\t' || c == '\n' || c == '\r' || c as int == 0x0C
  }

  predicate Digit(c: char) {
    '0' <= c <= '9'
  }

  predicate AllDigits(s: string) {
    forall i :: 0 <= i < |s| ==> Digit(s[i])
  }

  predicate All(p: char -> bool, s: string) {
    forall i :: 0 <= i < |s| ==> p(s[i])
  }

  function LowerChar(c: char): (r: char) {
    if 'A' <= c <= 'Z' then c - 'A' + 'a' else c
  }

  /** `str::to_ascii_lowercase`. */
  function AsciiLower(s: string): (r: string)
    ensures |r| == |s| && forall i :: 0 <= i < |s| ==> r[i] == LowerChar(s[i])
  {
    seq(|s|, i requires 0 <= i < |s| => LowerChar(s[i]))
  }

  // ----- trimming -----

  function TrimStart(p: char -> bool, s: string): string {
    if s != [] && p(s[0]) then TrimStart(p, s[1..]) else s
  }

  function TrimEnd(p: char -> bool, s: string): string {
    if s != [] && p(s[|s| - 1]) then TrimEnd(p, s[..|s| - 1]) else s
  }

  /** `str::trim_matches(p)`. */
  function Trim(p: char -> bool, s: string): string {
    TrimEnd(p, TrimStart(p, s))
  }

  /** No character of class `p` at either edge. */
  predicate Trimmed(p: char -> bool, s: string) {
    s == [] || (!p(s[0]) && !p(s[|s| - 1]))
  }

  lemma {:induction false} TrimStartShape(p: char -> bool, s: string) returns (i: nat)
    ensures i <= |s| && TrimStart(p, s) == s[i..]
    ensures i == |s| || !p(s[i])
    ensures forall k :: 0 <= k < i ==> p(s[k])
  {
    i := 0;
    if s != [] && p(s[0]) {
      var t := s[1..];
      var j := TrimStartShape(p, t);
      i := j + 1;
      assert t[j..] == s[i..];
      assert forall k :: 0 < k < i ==> s[k] == t[k - 1];
    }
  }

  lemma {:induction false} TrimEndShape(p: char -> bool, s: string) returns (j: nat)
    ensures j <= |s| && TrimEnd(p, s) == s[..j]
    ensures j == 0 || !p(s[j - 1])
    ensures forall k :: j <= k < |s| ==> p(s[k])
  {
    j := |s|;
    if s != [] && p(s[|s| - 1]) {
      var t := s[..|s| - 1];
      j := TrimEndShape(p, t);
      assert t[..j] == s[..j];
    }
  }

  /** What trimming keeps is the stretch between two edges of class `p`. */
  lemma TrimShape(p: char -> bool, s: string) returns (i: nat, j: nat)
    ensures i <= j <= |s| && Trim(p, s) == s[i..j]
    ensures i < j ==> !p(s[i]) && !p(s[j - 1])
    ensures forall k :: 0 <= k < i || j <= k < |s| ==> p(s[k])
  {
    i := TrimStartShape(p, s);
    var t := s[i..];
    var n := TrimEndShape(p, t);
    j := i + n;
    assert t[..n] == s[i..j];
    assert forall k :: i <= k < |s| ==> s[k] == t[k - i];
  }

  lemma {:induction false} TrimStartPrefix(p: char -> bool, a: string, m: string)
    requires All(p, a) && (m == [] || !p(m[0]))
    ensures TrimStart(p, a + m) == m
  {
    if a == [] {
      assert a + m == m;
    } else {
      assert p(a[0]) && (a + m)[1..] == a[1..] + m;
      TrimStartPrefix(p, a[1..], m);
    }
  }

  lemma {:induction false} TrimEndSuffix(p: char -> bool, m: string, b: string)
    requires All(p, b) && (m == [] || !p(m[|m| - 1]))
    ensures TrimEnd(p, m + b) == m
    decreases |b|
  {
    if b == [] {
      assert m + b == m;
    } else {
      assert p(b[|b| - 1]) && (m + b)[..|m + b| - 1] == m + b[..|b| - 1];
      TrimEndSuffix(p, m, b[..|b| - 1]);
    }
  }

  /** What is left once class `p` is stripped from both ends is determined by the split alone. */
  lemma TrimUnique(p: char -> bool, a: string, m: string, b: string)
    requires All(p, a) && All(p, b) && Trimmed(p, m)
    ensures Trim(p, a + m + b) == m
  {
    if m == [] {
      assert a + m + b == (a + b) + [];
      TrimStartPrefix(p, a + b, []);
    } else {
      assert a + m + b == a + (m + b);
      TrimStartPrefix(p, a, m + b);
      TrimEndSuffix(p, m, b);
    }
  }

  /** `t` is `s` without the characters of class `p` at its edges. */
  ghost predicate Stripped(p: char -> bool, s: string, t: string) {
    Trimmed(p, t) && exists a, b :: s == a + t + b && All(p, a) && All(p, b)
  }

  lemma TrimIsStripped(p: char -> bool, s: string, t: string)
    ensures Stripped(p, s, t) <==> t == Trim(p, s)
  {
    var i, j := TrimShape(p, s);
    var x, m, y := s[..i], s[i..j], s[j..];
    assert s == x + m + y && All(p, x) && All(p, y);
    assert i < j ==> m[0] == s[i] && m[|m| - 1] == s[j - 1];
    assert Stripped(p, s, m);
    forall a, b | s == a + t + b && All(p, a) && All(p, b) && Trimmed(p, t)
      ensures t == Trim(p, s)
    {
      TrimUnique(p, a, t, b);
    }
  }

  lemma TrimTrimmed(p: char -> bool, s: string)
    requires Trimmed(p, s)
    ensures Trim(p, s) == s
  {
    assert TrimStart(p, s) == s;
    assert TrimEnd(p, s) == s;
  }

  lemma TrimTwice(p: char -> bool, s: string)
    ensures Trim(p, Trim(p, s)) == Trim(p, s)
  {
    var i, j := TrimShape(p, s);
    var t := s[i..j];
    assert i < j ==> t[0] == s[i] && t[j - i - 1] == s[j - 1];
    TrimTrimmed(p, t);
  }

  // ----- prefixes -----

  /** `str::strip_prefix`. */
  function StripPrefix(s: string, pre: string): (r: Option<string>)
    ensures r.Some? <==> pre <= s
    ensures r.Some? ==> s == pre + r.value
  {
    if pre <= s then Some(s[|pre|..]) else None
  }

  /** `s.strip_prefix('#').unwrap_or(s)`. */
  function StripHash(s: string): string {
    if s != [] && s[0] == '#' then s[1..] else s
  }

  /** `str::trim_start_matches(pre)` for a string pattern: every leading repeat goes. */
  function TrimPrefixes(s: string, pre: string): string
    requires pre != []
  {
    if pre <= s then TrimPrefixes(s[|pre|..], pre) else s
  }

  // ----- splitting and joining -----

  /** `str::split` on any character of a class. */
  function SplitBy(p: char -> bool, s: string): (r: seq<string>)
    ensures |r| > 0
  {
    if s == [] then [[]]
    else
      var r := SplitBy(p, s[1..]);
      if p(s[0]) then [[]] + r else [[s[0]] + r[0]] + r[1..]
  }

  predicate Comma(c: char) { c == ',' }

  function Split(s: string): seq<string> {
    SplitBy(Comma, s)
  }

  lemma {:induction false} SplitNone(p: char -> bool, s: string)
    requires forall i :: 0 <= i < |s| ==> !p(s[i])
    ensures SplitBy(p, s) == [s]
  {
    if s != [] {
      SplitNone(p, s[1..]);
      assert [s[0]] + s[1..] == s;
    }
  }

  lemma {:induction false} SplitAt(p: char -> bool, a: string, c: char, b: string)
    requires p(c) && forall i :: 0 <= i < |a| ==> !p(a[i])
    ensures SplitBy(p, a + [c] + b) == [a] + SplitBy(p, b)
  {
    var s := a + [c] + b;
    if a == [] {
      assert s[1..] == b;
    } else {
      assert s[1..] == a[1..] + [c] + b;
      SplitAt(p, a[1..], c, b);
      assert [s[0]] + a[1..] == a;
    }
  }

  /** The first piece is the stretch before the first separator. */
  lemma {:induction false} SplitFirst(p: char -> bool, s: string)
    ensures SplitBy(p, s)[0] <= s
    ensures forall i :: 0 <= i < |SplitBy(p, s)[0]| ==> !p(s[i])
    ensures |SplitBy(p, s)[0]| < |s| ==> p(s[|SplitBy(p, s)[0]|])
  {
    if s != [] && !p(s[0]) {
      SplitFirst(p, s[1..]);
      var f := SplitBy(p, s[1..])[0];
      assert SplitBy(p, s)[0] == [s[0]] + f;
      forall i | 0 <= i < |f| + 1
        ensures !p(s[i])
      {
        if i > 0 {
          assert s[i] == s[1..][i - 1];
        }
      }
      if |f| + 1 < |s| {
        assert s[|f| + 1] == s[1..][|f|];
      }
    }
  }

  lemma {:induction false} SplitPiecesClear(p: char -> bool, s: string, piece: string)
    requires piece in SplitBy(p, s)
    ensures forall i :: 0 <= i < |piece| ==> !p(piece[i])
  {
    if s != [] {
      var r := SplitBy(p, s[1..]);
      if p(s[0]) {
        if piece != [] { SplitPiecesClear(p, s[1..], piece); }
      } else if piece == [s[0]] + r[0] {
        SplitPiecesClear(p, s[1..], r[0]);
      } else {
        assert piece in r[1..];
        SplitPiecesClear(p, s[1..], piece);
      }
    }
  }

  /** `[..].join(", ")`. */
  function Join(pieces: seq<string>): string {
    if pieces == [] then []
    else if |pieces| == 1 then pieces[0]
    else pieces[0] + ", " + Join(pieces[1..])
  }

  /** `.map(str::trim).filter(|p| !p.is_empty())`. */
  function TrimEach(parts: seq<string>): (r: seq<string>) {
    if parts == [] then []
    else
      var t := Trim(White, parts[0]);
      (if t == [] then [] else [t]) + TrimEach(parts[1..])
  }

  /** The comma pieces of a list-shaped value, trimmed, empties dropped. */
  function Pieces(s: string): seq<string> {
    TrimEach(Split(s))
  }

  predicate CommaFree(s: string) {
    forall i :: 0 <= i < |s| ==> s[i] != ','
  }

  /** A piece as `Pieces` yields them. */
  predicate Clean(piece: string) {
    piece != [] && Trimmed(White, piece) && CommaFree(piece)
  }

  lemma TrimClean(q: string)
    requires CommaFree(q)
    ensures Trim(White, q) == [] || Clean(Trim(White, q))
  {
    var i, j := TrimShape(White, q);
    var t := q[i..j];
    assert forall k :: 0 <= k < j - i ==> t[k] == q[i + k];
  }

  lemma {:induction false} TrimEachClean(parts: seq<string>)
    requires forall q :: q in parts ==> CommaFree(q)
    ensures forall piece :: piece in TrimEach(parts) ==> Clean(piece)
  {
    if parts != [] {
      TrimEachClean(parts[1..]);
      TrimClean(parts[0]);
    }
  }

  lemma PiecesClean(s: string)
    ensures forall piece :: piece in Pieces(s) ==> Clean(piece)
  {
    forall q | q in Split(s)
      ensures CommaFree(q)
    {
      SplitPiecesClear(Comma, s, q);
    }
    TrimEachClean(Split(s));
  }

  /** A space before the text changes no trimmed piece. */
  lemma SpacedPieces(tail: string)
    ensures Pieces([' '] + tail) == Pieces(tail)
  {
    var spaced, r := [' '] + tail, Split(tail);
    assert spaced[1..] == tail;
    var first := [' '] + r[0];
    assert Split(spaced) == [first] + r[1..];
    assert first[1..] == r[0];
    assert TrimStart(White, first) == TrimStart(White, r[0]);
    assert ([first] + r[1..])[1..] == r[1..];
  }

  lemma SinglePiece(h: string)
    requires Clean(h)
    ensures Pieces(h) == [h]
  {
    SplitNone(Comma, h);
    TrimTrimmed(White, h);
    assert TrimEach([h]) == [h] + TrimEach([h][1..]);
  }

  lemma LeadingPiece(h: string, tail: string)
    requires Clean(h)
    ensures Pieces(h + ", " + tail) == [h] + Pieces(tail)
  {
    var spaced := [' '] + tail;
    assert h + ", " + tail == h + [','] + spaced;
    SplitAt(Comma, h, ',', spaced);
    TrimTrimmed(White, h);
    assert ([h] + Split(spaced))[1..] == Split(spaced);
    SpacedPieces(tail);
  }

  /** Joining clean pieces and reading them back loses nothing and invents nothing. */
  lemma {:induction false} JoinRoundTrip(ps: seq<string>)
    requires forall piece :: piece in ps ==> Clean(piece)
    ensures Pieces(Join(ps)) == ps
  {
    if ps == [] {
      assert Split([]) == [[]];
      assert TrimEach([[]]) == TrimEach([[]][1..]);
    } else if |ps| == 1 {
      SinglePiece(ps[0]);
    } else {
      JoinRoundTrip(ps[1..]);
      LeadingPiece(ps[0], Join(ps[1..]));
    }
  }

  // ----- numbers -----

  function DigitValue(c: char): nat
    requires Digit(c)
  {
    c as nat - '0' as nat
  }

  /** The number a run of digits denotes. */
  function Decimal(s: string): nat
    requires AllDigits(s)
  {
    if s == [] then 0 else 10 * Decimal(s[..|s| - 1]) + DigitValue(s[|s| - 1])
  }

  /** A run of digits as a `u64`: none when empty or too large. */
  function DigitsU64(s: string): Option<nat> {
    if s != [] && AllDigits(s) && Decimal(s) <= U64_MAX then Some(Decimal(s)) else None
  }

  /** `str::parse::<u64>`, which also takes one leading `+`. */
  function ParseU64(s: string): Option<nat> {
    if s != [] && s[0] == '+' then DigitsU64(s[1..]) else DigitsU64(s)
  }

  lemma {:induction false} DecimalZero(s: string)
    requires AllDigits(s)
    ensures Decimal(s) == 0 <==> forall i :: 0 <= i < |s| ==> s[i] == '0'
  {
    if s != [] {
      DecimalZero(s[..|s| - 1]);
      assert s == s[..|s| - 1] + [s[|s| - 1]];
    }
  }

  /** `s.chars().take_while(char::is_ascii_digit)`. */
  function LeadingDigits(s: string): (r: string)
    ensures r <= s && AllDigits(r)
    ensures |r| < |s| ==> !Digit(s[|r|])
  {
    if s != [] && Digit(s[0]) then [s[0]] + LeadingDigits(s[1..]) else []
  }

  /** The leading digits are the only digit run that stops where a non-digit stands. */
  lemma {:induction false} LeadingDigitsUnique(s: string, n: nat)
    requires n <= |s| && AllDigits(s[..n]) && (n < |s| ==> !Digit(s[n]))
    ensures LeadingDigits(s) == s[..n]
  {
    if n > 0 {
      var t, d := s[1..], s[..n];
      assert d[0] == s[0] && d[1..] == t[..n - 1];
      assert n < |s| ==> t[n - 1] == s[n];
      LeadingDigitsUnique(t, n - 1);
      assert [s[0]] + t[..n - 1] == d;
    }
  }
}
