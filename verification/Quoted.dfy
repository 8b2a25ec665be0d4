/**
 * Quoting within a budget: crates/bugwarden-core/src/quoted.rs, `write_quoted`.
 * `raw` says which characters `char::escape_debug` leaves as they are.
 */
module Quoted {
  import opened Prelude

  const QUOTED_DEBUG_MAX_CHARS: nat := 1024 - 8

  type Raw = char -> bool

  // ----- one character -----

  function HexDigit(n: nat): char
    requires n < 16
  {
    if n < 10 then '0' + n as char else 'a' + (n - 10) as char
  }

  function Hex(n: nat): string {
    if n < 16 then [HexDigit(n)] else Hex(n / 16) + [HexDigit(n % 16)]
  }

  /** The letter a character is escaped with, when it has one. */
  function Letter(c: char): Option<char> {
    if c == '\0' then Some('0')
    else if c == '\t' then Some('t')
    else if c == '\r' then Some('r')
    else if c == '\n' then Some('n')
    else if c == '\\' || c == '"' || c == '\'' then Some(c)
    else None
  }

  function HexEscape(c: char): string {
    "\\u{" + Hex(c as nat) + "}"
  }

  /** `char::escape_debug`. */
  function EscapeDebug(c: char, raw: Raw): string {
    match Letter(c)
    case Some(e) => ['\\', e]
    case None => if raw(c) then [c] else HexEscape(c)
  }

  /** How a character is written: the apostrophe alone is left bare. */
  function Rendered(c: char, raw: Raw): string {
    if c == '\'' then "'" else EscapeDebug(c, raw)
  }

  /** The characters' renderings, one by one. */
  type Render = char -> string

  function RenderBy(raw: Raw): Render {
    (c: char) => Rendered(c, raw)
  }

  function RenderAll(s: string, render: Render): string {
    if s == [] then [] else render(s[0]) + RenderAll(s[1..], render)
  }

  // ----- reading it back -----

  function HexValueOf(c: char): Option<nat> {
    if '0' <= c <= '9' then Some(c as nat - '0' as nat)
    else if 'a' <= c <= 'f' then Some(c as nat - 'a' as nat + 10)
    else None
  }

  function HexValue(s: string): Option<nat> {
    if s == [] then Some(0)
    else match (HexValue(s[..|s| - 1]), HexValueOf(s[|s| - 1]))
      case (Some(n), Some(d)) => Some(16 * n + d)
      case _ => None
  }

  /** Where the closing brace is, or the end. */
  function Brace(s: string): (n: nat)
    ensures n <= |s|
  {
    if s == [] || s[0] == '}' then 0 else 1 + Brace(s[1..])
  }

  function Simple(c: char): Option<char> {
    if c == '0' then Some('\0')
    else if c == 't' then Some('\t')
    else if c == 'r' then Some('\r')
    else if c == 'n' then Some('\n')
    else if c == '\\' || c == '"' || c == '\'' then Some(c)
    else None
  }

  predicate Scalar(n: nat) {
    n < 0xD800 || 0xE000 <= n < 0x11_0000
  }

  /** One character off the front of a quoted text, and how much of it that took. */
  function ReadOne(s: string): (r: Option<(char, nat)>)
    requires s != []
    ensures r.Some? ==> 0 < r.value.1 <= |s|
  {
    if s[0] != '\\' then Some((s[0], 1))
    else if |s| > 3 && s[1] == 'u' && s[2] == '{' then
      var n := Brace(s[3..]);
      var value := HexValue(s[3..3 + n]);
      if 3 + n < |s| && value.Some? && Scalar(value.value) then Some((value.value as char, 4 + n)) else None
    else if |s| > 1 && Simple(s[1]).Some? then Some((Simple(s[1]).value, 2))
    else None
  }

  function Unescape(s: string): Option<string> {
    if s == [] then Some([])
    else match ReadOne(s)
      case None => None
      case Some((c, n)) =>
        match Unescape(s[n..])
        case Some(rest) => Some([c] + rest)
        case None => None
  }

  // ----- round trip -----

  lemma {:induction false} HexRoundTrip(n: nat)
    ensures HexValue(Hex(n)) == Some(n)
    ensures forall i :: 0 <= i < |Hex(n)| ==> Hex(n)[i] != '}'
  {
    if n < 16 {
      var s := Hex(n);
      assert s[..|s| - 1] == [];
    } else {
      HexRoundTrip(n / 16);
      var s, h := Hex(n), Hex(n / 16);
      assert s[..|s| - 1] == h;
    }
  }

  lemma {:induction false} BraceAt(h: string, rest: string)
    requires forall i :: 0 <= i < |h| ==> h[i] != '}'
    ensures Brace(h + "}" + rest) == |h|
  {
    var s := h + "}" + rest;
    if h != [] {
      assert s[1..] == h[1..] + "}" + rest;
      BraceAt(h[1..], rest);
    }
  }

  lemma ReadHex(h: string, n: nat, rest: string)
    requires HexValue(h) == Some(n) && Scalar(n) && forall i :: 0 <= i < |h| ==> h[i] != '}'
    ensures ReadOne("\\u{" + (h + "}" + rest)) == Some((n as char, |h| + 4))
  {
    var tail := h + "}" + rest;
    var s := "\\u{" + tail;
    BraceAt(h, rest);
    assert s[0] == '\\' && s[1] == 'u' && s[2] == '{' && s[3..] == tail;
    assert s[3..3 + |h|] == tail[..|h|] == h;
  }

  lemma ReadBare(c: char, rest: string)
    requires c != '\\'
    ensures ReadOne([c] + rest) == Some((c, 1))
  {
  }

  lemma ReadSimple(e: char, c: char, rest: string)
    requires Simple(e) == Some(c)
    ensures ReadOne(['\\', e] + rest) == Some((c, 2))
  {
  }

  lemma ReadHexEscape(c: char, rest: string)
    ensures ReadOne(HexEscape(c) + rest) == Some((c, |HexEscape(c)|))
  {
    var h := Hex(c as nat);
    HexRoundTrip(c as nat);
    ReadHex(h, c as nat, rest);
    assert HexEscape(c) + rest == "\\u{" + (h + "}" + rest);
  }

  /** What is written for a character is read back as that character, whatever follows. */
  lemma ReadRendered(c: char, raw: Raw, rest: string)
    ensures Rendered(c, raw) != []
    ensures ReadOne(Rendered(c, raw) + rest) == Some((c, |Rendered(c, raw)|))
  {
    if c == '\'' {
      ReadBare(c, rest);
    } else if Letter(c).Some? {
      ReadSimple(Letter(c).value, c, rest);
    } else if raw(c) {
      ReadBare(c, rest);
    } else {
      ReadHexEscape(c, rest);
    }
  }

  /** Renderings that are read back as the characters they stand for. */
  ghost predicate Readable(render: Render) {
    forall c: char, rest: string :: render(c) != [] && ReadOne(render(c) + rest) == Some((c, |render(c)|))
  }

  lemma RenderingIsReadable(raw: Raw)
    ensures Readable(RenderBy(raw))
  {
    forall c: char, rest: string
      ensures Rendered(c, raw) != [] && ReadOne(Rendered(c, raw) + rest) == Some((c, |Rendered(c, raw)|))
    {
      ReadRendered(c, raw, rest);
    }
  }

  lemma {:induction false} UnescapeRenderAll(s: string, render: Render)
    requires Readable(render)
    ensures Unescape(RenderAll(s, render)) == Some(s)
  {
    if s != [] {
      var r, rest := render(s[0]), RenderAll(s[1..], render);
      UnescapeRenderAll(s[1..], render);
      var all := r + rest;
      assert RenderAll(s, render) == all && all != [] && all[|r|..] == rest;
      assert s == [s[0]] + s[1..];
    }
  }

  // ----- the budget -----

  /** How many characters the loop writes before one does not fit. */
  function Fitting(s: string, budget: nat, render: Render): (n: nat)
    ensures n <= |s|
  {
    if s == [] then 0
    else
      var width := |render(s[0])|;
      if width > budget then 0 else 1 + Fitting(s[1..], budget - width, render)
  }

  /** The characters written are the longest prefix whose rendering fits. */
  lemma {:induction false} FittingIsLongest(s: string, budget: nat, render: Render)
    ensures var n := Fitting(s, budget, render);
      |RenderAll(s[..n], render)| <= budget && (n < |s| ==> |RenderAll(s[..n + 1], render)| > budget)
  {
    if s != [] {
      var width := |render(s[0])|;
      if width <= budget {
        var rest, n := s[1..], Fitting(s[1..], budget - width, render);
        FittingIsLongest(rest, budget - width, render);
        var head, longer := s[..n + 1], s[..if n + 1 < |s| then n + 2 else n + 1];
        assert head[0] == s[0] && head[1..] == rest[..n];
        if n < |rest| {
          assert longer[0] == s[0] && longer[1..] == rest[..n + 1];
        }
      } else {
        var one := s[..1];
        assert one[0] == s[0] && one[1..] == [];
      }
    }
  }

  lemma {:induction false} RenderAppend(a: string, c: char, render: Render)
    ensures RenderAll(a + [c], render) == RenderAll(a, render) + render(c)
  {
    if a == [] {
      assert (a + [c])[1..] == [];
    } else {
      var rest := a[1..];
      assert (a + [c])[0] == a[0] && (a + [c])[1..] == rest + [c];
      RenderAppend(rest, c, render);
      var x, y, z := render(a[0]), RenderAll(rest, render), render(c);
      assert x + (y + z) == (x + y) + z;
    }
  }

  /** What the loop writes between the quotes. */
  function Cut(s: string, raw: Raw): string {
    s[..Fitting(s, QUOTED_DEBUG_MAX_CHARS, RenderBy(raw))]
  }

  function QuotedText(s: string, raw: Raw): string {
    "\"" + RenderAll(Cut(s, raw), RenderBy(raw)) + "\""
  }

  /** How many characters a formatter still takes before it refuses: none stands for any number. */
  type Room = Option<nat>

  predicate Takes(room: Room, t: string) {
    room.Some? ==> |t| <= room.value
  }

  /** As much of a text as gets through. */
  function Through(room: Room, t: string): string {
    if Takes(room, t) then t else t[..room.value]
  }

  function RoomAfter(room: Room, t: string): Room {
    if room.None? then None else Some(if |t| <= room.value then room.value - |t| else 0)
  }

  /** A formatter that held `start` and took `had` more has been written `t`, as far as that got through. */
  predicate Got(had: Room, start: string, t: string, now: string, left: Room) {
    now == start + Through(had, t) && left == RoomAfter(had, t)
  }

  /** Two writes in a row, the first of which got through. */
  lemma GotMore(had: Room, start: string, a: string, mid: string, left: Room, b: string, now: string, after: Room)
    requires Takes(had, a) && Got(had, start, a, mid, left) && Got(left, mid, b, now, after)
    ensures Got(had, start, a + b, now, after) && (Takes(had, a + b) <==> Takes(left, b))
  {
    assert (start + a) + Through(left, b) == start + (a + Through(left, b));
    assert Through(had, a + b) == a + Through(left, b);
  }

  /** A refusal part of the way through is a refusal of the whole, at the same place. */
  lemma GotRefused(had: Room, start: string, a: string, b: string, now: string, left: Room)
    requires !Takes(had, a) && Got(had, start, a, now, left)
    ensures Got(had, start, a + b, now, left) && !Takes(had, a + b)
  {
    assert Through(had, a + b) == Through(had, a);
  }

  /** The text a value is written to, by a formatter that may refuse at any character. */
  class Formatter {
    var text: string
    var room: Room

    constructor (takes: Room)
      ensures text == [] && room == takes
    {
      text, room := [], takes;
    }

    /** `Formatter::write_str`: what is refused may have got through in part. */
    method WriteStr(t: string) returns (ok: bool)
      modifies this
      ensures ok == Takes(old(room), t) && Got(old(room), old(text), t, text, room)
    {
      ok := room.None? || |t| <= room.value;
      text := text + if ok then t else t[..room.value];
      if room.Some? {
        room := Some(if ok then room.value - |t| else 0);
      }
    }

    /** `write_quoted`: however early the formatter refuses, what got through is the beginning of the quoted text. */
    method WriteQuoted(s: string, raw: Raw) returns (ok: bool)
      modifies this
      ensures ok == Takes(old(room), QuotedText(s, raw))
      ensures Got(old(room), old(text), QuotedText(s, raw), text, room)
    {
      ghost var q, middle := "\"", RenderAll(Cut(s, raw), RenderBy(raw));
      ghost var start, had := text, room;
      ok := WriteStr("\"");
      if !ok {
        GotRefused(had, start, q, middle, text, room);
        GotRefused(had, start, q + middle, q, text, room);
        return;
      }
      ghost var mid, left := text, room;
      ok := WriteFitting(s, RenderBy(raw));
      GotMore(had, start, q, mid, left, middle, text, room);
      if !ok {
        GotRefused(had, start, q + middle, q, text, room);
        return;
      }
      mid, left := text, room;
      ok := WriteStr("\"");
      GotMore(had, start, q + middle, mid, left, q, text, room);
    }

    /** Its loop: every character whole, until the first that does not fit. */
    method WriteFitting(s: string, render: Render) returns (ok: bool)
      modifies this
      ensures var all := RenderAll(s[..Fitting(s, QUOTED_DEBUG_MAX_CHARS, render)], render);
        ok == Takes(old(room), all) && Got(old(room), old(text), all, text, room)
    {
      var remaining: nat := QUOTED_DEBUG_MAX_CHARS;
      var i := 0;
      ghost var start, had := text, room;
      ghost var n, done := Fitting(s, QUOTED_DEBUG_MAX_CHARS, render), "";
      assert s[0..] == s;
      while i < |s|
        invariant i <= |s| && done == RenderAll(s[..i], render)
        invariant Takes(had, done) && Got(had, start, done, text, room)
        invariant n == i + Fitting(s[i..], remaining, render)
      {
        OneMore(s, i, remaining, render);
        var rendered := render(s[i]);
        if |rendered| > remaining {
          break;
        }
        remaining := remaining - |rendered|;
        ghost var mid, left := text, room;
        ok := WriteStr(rendered);
        GotMore(had, start, done, mid, left, rendered, text, room);
        done := done + rendered;
        if !ok {
          GotRefused(had, start, done, RenderBetween(s, i + 1, n, render), text, room);
          return;
        }
        i := i + 1;
      }
      ok := true;
    }
  }

  /** The rendering of the characters from `i` up to `n`. */
  ghost function RenderBetween(s: string, i: nat, n: nat, render: Render): (r: string)
    requires i <= n <= |s|
    ensures RenderAll(s[..n], render) == RenderAll(s[..i], render) + r
  {
    var head := s[..n];
    RenderSplit(head, i, render);
    assert head[..i] == s[..i];
    RenderAll(head[i..], render)
  }

  lemma {:induction false} RenderSplit(s: string, i: nat, render: Render)
    requires i <= |s|
    ensures RenderAll(s, render) == RenderAll(s[..i], render) + RenderAll(s[i..], render)
  {
    if i == 0 {
      assert s[0..] == s;
    } else {
      var head, rest := s[..i], s[1..];
      assert head[0] == s[0] && head[1..] == rest[..i - 1] && rest[i - 1..] == s[i..];
      RenderSplit(rest, i - 1, render);
    }
  }

  /** One turn of the loop, on the text written and on the budget left. */
  lemma OneMore(s: string, i: nat, remaining: nat, render: Render)
    requires i < |s|
    ensures RenderAll(s[..i + 1], render) == RenderAll(s[..i], render) + render(s[i])
    ensures var width := |render(s[i])|;
      Fitting(s[i..], remaining, render) == if width > remaining then 0 else 1 + Fitting(s[i + 1..], remaining - width, render)
  {
    var left, head := s[i..], s[..i];
    assert left[1..] == s[i + 1..];
    assert s[..i + 1] == head + [s[i]];
    RenderAppend(head, s[i], render);
  }

  /** The text between the first and the last character. */
  function Inside(q: string): string {
    if |q| < 2 then [] else q[1..|q| - 1]
  }

  lemma InsideQuotes(body: string)
    ensures Inside("\"" + body + "\"") == body
  {
  }

  /**
   * What is written is a quote, the rendering of the longest prefix that fits,
   * and a quote; the middle decodes to exactly that prefix.
   */
  lemma QuotedIsAPrefix(s: string, raw: Raw)
    ensures Unescape(Inside(QuotedText(s, raw))) == Some(Cut(s, raw)) && Cut(s, raw) <= s
    ensures |Inside(QuotedText(s, raw))| <= QUOTED_DEBUG_MAX_CHARS
    ensures Cut(s, raw) != s ==> |RenderAll(s[..|Cut(s, raw)| + 1], RenderBy(raw))| > QUOTED_DEBUG_MAX_CHARS
  {
    var cut := Cut(s, raw);
    FittingIsLongest(s, QUOTED_DEBUG_MAX_CHARS, RenderBy(raw));
    RenderingIsReadable(raw);
    UnescapeRenderAll(cut, RenderBy(raw));
    InsideQuotes(RenderAll(cut, RenderBy(raw)));
  }

  lemma {:induction false} RenderGrows(s: string, n: nat, render: Render)
    requires n <= |s|
    ensures |RenderAll(s[..n], render)| <= |RenderAll(s, render)|
  {
    if n > 0 {
      var head, rest := s[..n], s[1..];
      assert head[0] == s[0] && head[1..] == rest[..n - 1];
      RenderGrows(rest, n - 1, render);
    }
  }

  /** A value is written whole exactly when its rendering fits. */
  lemma WholeIffItFits(s: string, raw: Raw)
    ensures Cut(s, raw) == s <==> |RenderAll(s, RenderBy(raw))| <= QUOTED_DEBUG_MAX_CHARS
  {
    var n := Fitting(s, QUOTED_DEBUG_MAX_CHARS, RenderBy(raw));
    FittingIsLongest(s, QUOTED_DEBUG_MAX_CHARS, RenderBy(raw));
    if n < |s| {
      RenderGrows(s, n + 1, RenderBy(raw));
    } else {
      assert s[..n] == s;
    }
  }

  // ----- nothing that could end the quote, or the line -----

  /** Characters an escape is written with. */
  predicate EscapeChar(c: char) {
    c in {'\\', 'u', '{', '}', '0', 't', 'r', 'n'} || '0' <= c <= '9' || 'a' <= c <= 'f'
  }

  lemma {:induction false} HexIsPlain(n: nat)
    ensures forall i :: 0 <= i < |Hex(n)| ==> EscapeChar(Hex(n)[i])
  {
    if n >= 16 {
      HexIsPlain(n / 16);
    }
  }

  /** How one character is written: itself if it may be, else by an escape; a quote only behind a backslash. */
  lemma RenderedShape(c: char, raw: Raw)
    ensures var r := Rendered(c, raw);
      && (c in {'\0', '\t', '\r', '\n'} ==> |r| == 2 && r[0] == '\\' && EscapeChar(r[1]))
      && (c == '"' ==> r == ['\\', '"']) && (c == '\\' ==> r == ['\\', '\\']) && (c == '\'' ==> r == [c])
      && (c !in {'\0', '\t', '\r', '\n', '"', '\\', '\''} && raw(c) ==> r == [c])
      && (c !in {'\0', '\t', '\r', '\n', '"', '\\', '\''} && !raw(c) ==> forall i :: 0 <= i < |r| ==> EscapeChar(r[i]))
  {
    HexIsPlain(c as nat);
  }

  /** Where a scanner for the end of the quoted text stands: after how many characters a bare quote comes, if any. */
  function ClosingQuote(q: string): Option<nat>
    decreases |q|
  {
    if q == [] then None
    else if q[0] == '"' then Some(0)
    else
      var n := if q[0] == '\\' && |q| >= 2 then 2 else 1;
      match ClosingQuote(q[n..])
      case Some(k) => Some(n + k)
      case None => None
  }

  lemma ClosingSkips(r: string, rest: string)
    requires r != [] && (if r[0] == '\\' then |r| == 2 else |r| == 1 && r[0] != '"')
    ensures ClosingQuote(r + rest) == match ClosingQuote(rest) case Some(k) => Some(|r| + k) case None => None
  {
    assert (r + rest)[|r|..] == rest;
  }

  lemma {:induction false} ClosingSkipsPlain(r: string, rest: string)
    requires forall i :: 0 <= i < |r| ==> r[i] != '"' && r[i] != '\\'
    ensures ClosingQuote(r + rest) == match ClosingQuote(rest) case Some(k) => Some(|r| + k) case None => None
  {
    if r == [] {
      assert r + rest == rest;
    } else {
      assert (r + rest)[1..] == r[1..] + rest;
      ClosingSkipsPlain(r[1..], rest);
    }
  }

  lemma RenderedIsSkipped(c: char, raw: Raw, rest: string)
    ensures var r := Rendered(c, raw);
      ClosingQuote(r + rest) == match ClosingQuote(rest) case Some(k) => Some(|r| + k) case None => None
  {
    var r := Rendered(c, raw);
    if c != '\'' && Letter(c).None? && !raw(c) {
      HexHasNoQuote(c as nat);
      var tail := "{" + Hex(c as nat) + "}";
      assert r == "\\u" + tail && r + rest == "\\u" + (tail + rest);
      ClosingSkips("\\u", tail + rest);
      ClosingSkipsPlain(tail, rest);
    } else {
      ClosingSkips(r, rest);
    }
  }

  lemma {:induction false} HexHasNoQuote(n: nat)
    ensures forall i :: 0 <= i < |Hex(n)| ==> Hex(n)[i] != '"' && Hex(n)[i] != '\\'
  {
    if n >= 16 {
      HexHasNoQuote(n / 16);
    }
  }

  lemma {:induction false} AllSkipped(s: string, raw: Raw, rest: string)
    ensures var r := RenderAll(s, RenderBy(raw));
      ClosingQuote(r + rest) == match ClosingQuote(rest) case Some(k) => Some(|r| + k) case None => None
  {
    var render := RenderBy(raw);
    if s == [] {
      assert [] + rest == rest;
    } else {
      var first, more := render(s[0]), RenderAll(s[1..], render);
      ConcatAssoc(first, more, rest);
      AllSkipped(s[1..], raw, rest);
      RenderedIsSkipped(s[0], raw, more + rest);
    }
  }

  /** Behind the opening quote, the first quote that no backslash escapes is the closing one. */
  lemma QuoteClosesOnce(s: string, raw: Raw)
    ensures QuotedText(s, raw)[0] == '"' && ClosingQuote(QuotedText(s, raw)[1..]) == Some(|QuotedText(s, raw)| - 2)
  {
    var middle := RenderAll(Cut(s, raw), RenderBy(raw));
    assert QuotedText(s, raw)[1..] == middle + "\"";
    AllSkipped(Cut(s, raw), raw, "\"");
  }

  /** And the whole stays on one line, with no control character the letters of an escape stand for. */
  lemma {:induction false} RenderingStaysOnLine(s: string, raw: Raw)
    ensures forall i :: 0 <= i < |RenderAll(s, RenderBy(raw))| ==> RenderAll(s, RenderBy(raw))[i] !in {'\0', '\t', '\r', '\n'}
  {
    if s != [] {
      RenderingStaysOnLine(s[1..], raw);
      RenderedShape(s[0], raw);
    }
  }
}
