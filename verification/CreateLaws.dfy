/**
 * What a create request is filed as and judged on, spelt out field by field:
 * crates/bugwarden-core/src/guard.rs, `may_create` as documented.
 */
module CreateLaws {
  import opened Prelude
  import opened Text
  import opened Json
  import opened Policy
  import opened CreateGate
  import BugJson
  import PolicyExact

  // ----- what is filed -----

  /** Without the blanks at its edges, U+180E among them. */
  ghost predicate NameFiled(s: string, t: string) {
    Stripped((c: char) => White(c) || c as int == 0x180E, s, t)
  }

  lemma TrimmedNameIsFiled(s: string, t: string)
    ensures NameFiled(s, t) <==> t == TrimName(s)
  {
    var blank := (c: char) => White(c) || c as int == 0x180E;
    TrimIsStripped(NameBlank, s, t);
    assert forall c :: blank(c) == NameBlank(c);
    assert Trimmed(blank, t) <==> Trimmed(NameBlank, t);
    forall a: string
      ensures All(blank, a) <==> All(NameBlank, a)
    {
    }
  }

  predicate AsciiControl(c: char) {
    0 <= c as int <= 0x1F || c as int == 0x7F
  }

  /** Where a run of control characters ends, it has become one space. */
  lemma {:induction false} RunIsOneSpace(run: string, rest: string, inRun: bool)
    requires run != [] && (forall i :: 0 <= i < |run| ==> AsciiControl(run[i]))
    requires rest == [] || !AsciiControl(rest[0])
    ensures Collapse(run + rest, inRun) == (if inRun then "" else " ") + Collapse(rest, true)
  {
    assert (run + rest)[0] == run[0] && (run + rest)[1..] == run[1..] + rest;
    if |run| == 1 {
      assert run[1..] + rest == rest;
    } else {
      RunIsOneSpace(run[1..], rest, true);
      assert (if inRun then "" else " ") + ("" + Collapse(rest, true)) == (if inRun then "" else " ") + Collapse(rest, true);
    }
  }

  /** Text without control characters stays, and what follows it is rewritten on its own. */
  lemma {:induction false} PlainStays(text: string, rest: string, inRun: bool)
    requires text != [] && forall i :: 0 <= i < |text| ==> !AsciiControl(text[i])
    ensures Collapse(text + rest, inRun) == text + Collapse(rest, false)
  {
    assert (text + rest)[0] == text[0] && (text + rest)[1..] == text[1..] + rest;
    if |text| == 1 {
      assert text[1..] + rest == rest && text == [text[0]];
    } else {
      PlainStays(text[1..], rest, false);
      assert [text[0]] + (text[1..] + Collapse(rest, false)) == text + Collapse(rest, false);
    }
  }

  /** A text in stretches: plain ones, and runs of control characters between them. */
  datatype Stretch = Verbatim(text: string) | Controls(run: string)

  ghost predicate Alternating(parts: seq<Stretch>) {
    && (forall i :: 0 <= i < |parts| ==>
          match parts[i]
          case Verbatim(t) => t != [] && forall k :: 0 <= k < |t| ==> !AsciiControl(t[k])
          case Controls(r) => r != [] && forall k :: 0 <= k < |r| ==> AsciiControl(r[k]))
    && forall i :: 0 <= i < |parts| - 1 ==> parts[i].Controls? != parts[i + 1].Controls?
  }

  function Whole(parts: seq<Stretch>): string {
    if parts == [] then [] else (if parts[0].Verbatim? then parts[0].text else parts[0].run) + Whole(parts[1..])
  }

  /** The same with each run of control characters for one space. */
  function Spaced(parts: seq<Stretch>): string {
    if parts == [] then [] else (if parts[0].Verbatim? then parts[0].text else " ") + Spaced(parts[1..])
  }

  lemma {:induction false} CollapsesToSpaces(parts: seq<Stretch>, inRun: bool)
    requires Alternating(parts) && (inRun && parts != [] ==> parts[0].Verbatim?)
    ensures Collapse(Whole(parts), inRun) == Spaced(parts)
  {
    if parts != [] {
      var rest := parts[1..];
      assert Alternating(rest) by {
        assert forall i :: 0 <= i < |rest| ==> rest[i] == parts[i + 1];
      }
      assert rest != [] ==> rest[0] == parts[1] && parts[0].Controls? != parts[1].Controls?;
      if parts[0].Verbatim? {
        PlainStays(parts[0].text, Whole(rest), inRun);
        CollapsesToSpaces(rest, false);
      } else {
        FirstChar(rest);
        RunIsOneSpace(parts[0].run, Whole(rest), inRun);
        CollapsesToSpaces(rest, true);
      }
    }
  }

  lemma FirstChar(parts: seq<Stretch>)
    requires Alternating(parts) && (parts != [] ==> parts[0].Verbatim?)
    ensures Whole(parts) == [] || !AsciiControl(Whole(parts)[0])
  {
  }

  /** A title is filed with each run of control characters as one space, and no blanks at its edges. */
  ghost predicate TitleFiled(s: string, t: string) {
    exists parts :: Alternating(parts) && s == Whole(parts) && Stripped(White, Spaced(parts), t)
  }

  lemma {:induction false} InStretches(s: string) returns (parts: seq<Stretch>)
    ensures Alternating(parts) && Whole(parts) == s
    ensures s != [] ==> parts != [] && (parts[0].Controls? <==> AsciiControl(s[0]))
  {
    parts := [];
    if s != [] {
      var rest := InStretches(s[1..]);
      var control := AsciiControl(s[0]);
      if s[1..] != [] && rest[0].Controls? == control {
        var longer := if control then Controls([s[0]] + rest[0].run) else Verbatim([s[0]] + rest[0].text);
        parts := [longer] + rest[1..];
        assert parts[1..] == rest[1..];
        assert forall i :: 0 < i < |parts| ==> parts[i] == rest[i];
        var head := if control then rest[0].run else rest[0].text;
        assert [s[0]] + (head + Whole(rest[1..])) == ([s[0]] + head) + Whole(rest[1..]);
        assert Whole(parts) == [s[0]] + s[1..];
      } else {
        parts := [if control then Controls([s[0]]) else Verbatim([s[0]])] + rest;
        assert parts[1..] == rest;
        assert forall i :: 0 < i < |parts| ==> parts[i] == rest[i - 1];
        assert Whole(parts) == [s[0]] + s[1..];
      }
    }
  }

  lemma TitleIsFiled(s: string, t: string)
    ensures TitleFiled(s, t) <==> t == CleanText(s)
  {
    var parts := InStretches(s);
    CollapsesToSpaces(parts, false);
    TrimIsStripped(White, Spaced(parts), t);
    forall other | Alternating(other) && s == Whole(other) && Stripped(White, Spaced(other), t)
      ensures t == CleanText(s)
    {
      CollapsesToSpaces(other, false);
      TrimIsStripped(White, Spaced(other), t);
    }
  }

  /** What becomes of one keyword: trimmed, unless that leaves what Bugzilla skips; and what Bugzilla skips goes. */
  ghost predicate KeywordFiled(k: Value, filed: seq<Value>) {
    if !k.Str? then filed == [k]
    else
      exists t :: NameFiled(k.s, t)
        && filed == if t != "" && t != "0" then [Str(t)] else if k.s != "" && k.s != "0" then [k] else []
  }

  lemma OneKeyword(k: Value)
    ensures KeywordFiled(k, FiledKeywords([k]))
  {
    var filed := FiledKeyword(k);
    assert [k][1..] == [];
    assert FiledKeywords([k]) == if Filed(filed) then [filed] else [];
    if k.Str? {
      var t := TrimName(k.s);
      TrimmedNameIsFiled(k.s, t);
      assert FiledKeywords([k]) == if t != "" && t != "0" then [Str(t)] else if k.s != "" && k.s != "0" then [k] else [];
    }
  }

  lemma {:induction false} KeywordsOneByOne(a: seq<Value>, b: seq<Value>)
    ensures FiledKeywords(a + b) == FiledKeywords(a) + FiledKeywords(b)
  {
    if a == [] {
      assert a + b == b;
    } else {
      assert (a + b)[0] == a[0] && (a + b)[1..] == a[1..] + b;
      KeywordsOneByOne(a[1..], b);
      var first := if Filed(FiledKeyword(a[0])) then [FiledKeyword(a[0])] else [];
      ConcatAssoc(first, FiledKeywords(a[1..]), FiledKeywords(b));
    }
  }

  /** A field of the request and what is filed for it. */
  ghost predicate FieldFiled(key: string, was: Option<Value>, filed: Option<Value>) {
    if key in {"product", "component", "severity", "priority"} && was.Some? && was.value.Str? then
      exists t :: NameFiled(was.value.s, t) && filed == Some(Str(t))
    else if key == "summary" && was.Some? && was.value.Str? then
      exists t :: TitleFiled(was.value.s, t) && filed == Some(Str(t))
    else if key == "keywords" && was.Some? && was.value.Array? then
      var items := FiledKeywords(was.value.items);
      filed == if items == [] then None else Some(Array(items))
    else filed == was
  }

  /** Every field of a request is filed so, and no other is added. */
  lemma FiledAsSaid(requested: Value, key: string)
    ensures FieldFiled(key, Get(requested, key), Get(Normalized(requested), key))
  {
    var was := Get(requested, key);
    if was.Some? && was.value.Str? {
      TrimmedNameIsFiled(was.value.s, TrimName(was.value.s));
      TitleIsFiled(was.value.s, CleanText(was.value.s));
    }
  }

  // ----- what is judged -----

  /** A component counts only as one name. */
  function ComponentOf(filed: Value): Option<seq<string>> {
    match Get(filed, "component")
    case Some(Str(s)) => Some([s])
    case _ => None
  }

  /** Keywords count only as a list of names each in the form it will be filed under. */
  ghost predicate KeywordsCount(filed: Value, keywords: seq<string>) {
    && Get(filed, "keywords").Some? && Get(filed, "keywords").value.Array?
    && |Get(filed, "keywords").value.items| == |keywords|
    && forall i :: 0 <= i < |keywords| ==>
         Get(filed, "keywords").value.items[i] == Str(keywords[i]) && NameFiled(keywords[i], keywords[i])
  }

  /** The bug as it would be: what the request says of it, filed now by this caller, in groups nobody knows yet. */
  ghost predicate WouldBe(filed: Value, created: Time, b: BugMeta) {
    && b.summary == GetStr(filed, "summary") && b.product == GetStr(filed, "product") && b.status == GetStr(filed, "status")
    && b.severity == GetStr(filed, "severity") && b.priority == GetStr(filed, "priority")
    && b.components == ComponentOf(filed)
    && (match b.keywords
        case Some(keywords) => KeywordsCount(filed, keywords)
        case None => forall keywords :: !KeywordsCount(filed, keywords))
    && (match b.whiteboard
        case Some(text) => BugJson.SendsWhiteboard(filed, text)
        case None => forall text :: !BugJson.SendsWhiteboard(filed, text))
    && b.groups == None && b.creationTime == Some(created) && b.createdByMe == Some(true)
  }

  lemma KeywordsAsJudged(filed: Value, created: Time, w: World)
    ensures match Prospective(filed, created, w).keywords
            case Some(keywords) => KeywordsCount(filed, keywords)
            case None => forall keywords :: !KeywordsCount(filed, keywords)
  {
    var got := Get(filed, "keywords");
    if KeywordsAsFiled(filed) {
      var items := got.value.items;
      NamesOfStrings(items);
      var keywords := Prospective(filed, created, w).keywords.value;
      forall i | 0 <= i < |keywords|
        ensures items[i] == Str(keywords[i]) && NameFiled(keywords[i], keywords[i])
      {
        assert items[i] in items;
        TrimmedNameIsFiled(keywords[i], keywords[i]);
      }
    } else {
      forall keywords | KeywordsCount(filed, keywords)
        ensures false
      {
        var items := got.value.items;
        forall k | k in items
          ensures k.Str? && TrimName(k.s) == k.s
        {
          var i :| 0 <= i < |items| && items[i] == k;
          TrimmedNameIsFiled(keywords[i], keywords[i]);
        }
      }
    }
  }

  lemma JudgedAsItWouldBe(filed: Value, created: Time, w: World)
    ensures WouldBe(filed, created, Prospective(filed, created, w))
  {
    KeywordsAsJudged(filed, created, w);
    var board := BugJson.Whiteboard(filed);
    forall text
      ensures board == Some(text) <==> BugJson.SendsWhiteboard(filed, text)
    {
      BugJson.WhiteboardExactly(filed, text);
    }
  }

  /** A filing is permitted exactly when the policy, read criterion by criterion, permits creating the bug as it would be. */
  lemma MayCreateExactly(p: Policy, requested: Value, created: Time, now: Time, w: World) returns (b: BugMeta)
    ensures WouldBe(Normalized(requested), created, b)
    ensures MayCreate(p, requested, created, now, w) <==> PolicyExact.Permitted(p, b, now, Creating, w, Create)
  {
    b := Prospective(Normalized(requested), created, w);
    JudgedAsItWouldBe(Normalized(requested), created, w);
    PolicyExact.AccessExactly(p, b, now, Creating, w, Create);
  }
}
