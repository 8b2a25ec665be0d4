/** Reading audit files back, line by line, and what the lines of one file are. */
module AuditLines {
  import opened Prelude
  import opened AuditModel

  /** Where the first line of `b` ends: at a newline, or at the end of the bytes. */
  function LineEnd(b: Bytes): (n: nat)
    ensures n <= |b|
  {
    if b == [] || b[0] == NL then 0 else 1 + LineEnd(b[1..])
  }

  /** A parser's view of a file: split on newlines, empty lines skipped. */
  function Lines(b: Bytes): seq<Bytes>
    decreases |b|
  {
    if b == [] then []
    else
      var n := LineEnd(b);
      (if n == 0 then [] else [b[..n]]) + (if n < |b| then Lines(b[n + 1..]) else [])
  }

  predicate Terminated(b: Bytes) {
    b == [] || b[|b| - 1] == NL
  }

  /** Bytes that start a fresh line, if there are any. */
  predicate Opens(b: Bytes) {
    b == [] || b[0] == NL
  }

  lemma {:induction false} LineEndSpot(b: Bytes)
    ensures forall i :: 0 <= i < LineEnd(b) ==> b[i] != NL
    ensures LineEnd(b) < |b| ==> b[LineEnd(b)] == NL
  {
    if b != [] && b[0] != NL {
      var t := b[1..];
      LineEndSpot(t);
      assert forall i :: 0 < i < |b| ==> b[i] == t[i - 1];
    }
  }

  lemma {:induction false} LineEndUnique(b: Bytes, n: nat)
    requires n <= |b| && (forall i :: 0 <= i < n ==> b[i] != NL) && (n < |b| ==> b[n] == NL)
    ensures LineEnd(b) == n
  {
    if n > 0 {
      var t := b[1..];
      assert b[0] != NL;
      assert forall i :: 0 <= i < n - 1 ==> t[i] == b[i + 1];
      LineEndUnique(t, n - 1);
    }
  }

  /** A line's text as a list of lines: nothing when it is empty. */
  function One(p: Bytes): seq<Bytes> {
    if p == [] then [] else [p]
  }

  lemma NextLine(p: Bytes, rest: Bytes)
    requires NL !in p
    ensures Lines(p + [NL] + rest) == One(p) + Lines(rest)
  {
    var b := p + [NL] + rest;
    LineEndUnique(b, |p|);
    assert b[..|p|] == p && b[|p| + 1..] == rest;
  }

  lemma LastLine(p: Bytes)
    requires NL !in p
    ensures Lines(p) == One(p)
  {
    LineEndUnique(p, |p|);
    assert p[..|p|] == p;
  }

  /** A newline in front adds nothing but an empty line. */
  lemma BlankFirst(b: Bytes)
    ensures Lines([NL] + b) == Lines(b)
  {
    NextLine([], b);
    assert [] + [NL] + b == [NL] + b;
  }

  /** Where one text ends a line or the other begins one, their lines are read separately. */
  lemma {:induction false} LinesJoin(a: Bytes, b: Bytes)
    requires Terminated(a) || Opens(b)
    ensures Lines(a + b) == Lines(a) + Lines(b)
    decreases |a|
  {
    var n := LineEnd(a);
    LineEndSpot(a);
    var p := a[..n];
    if n < |a| {
      var rest := a[n + 1..];
      SplitAtLine(a, b, n);
      NextLine(p, rest);
      NextLine(p, rest + b);
      LinesJoin(rest, b);
      ConcatAssoc(One(p), Lines(rest), Lines(b));
    } else {
      assert a == p;
      LastPart(a, b);
    }
  }

  lemma SplitAtLine(a: Bytes, b: Bytes, n: nat)
    requires n < |a| && a[n] == NL
    ensures var p, rest := a[..n], a[n + 1..];
      && a == p + [NL] + rest && a + b == p + [NL] + (rest + b)
      && (Terminated(a) <==> Terminated(rest))
  {
    var rest := a[n + 1..];
    assert if rest == [] then a[|a| - 1] == a[n] else rest[|rest| - 1] == a[|a| - 1];
  }

  /** An unfinished line is finished by what opens the text after it. */
  lemma LastPart(a: Bytes, b: Bytes)
    requires NL !in a && (Terminated(a) || Opens(b))
    ensures Lines(a + b) == Lines(a) + Lines(b)
  {
    LastLine(a);
    if a == [] {
      assert a + b == b;
    } else if b == [] {
      assert a + b == a;
    } else {
      var rest := b[1..];
      assert b == [NL] + rest && a + b == a + [NL] + rest;
      NextLine(a, rest);
      BlankFirst(rest);
    }
  }

  // ----- the lines of the parts of a file -----

  /** How much of the record itself got out, newlines aside. */
  function Shown(enc: Encoder, part: Part): nat
    requires part.Line?
  {
    var before := if part.healed then 1 else 0;
    Min(if part.out < before then 0 else part.out - before, |enc(part.event)|)
  }

  /** The one line a part is read back as; none when no byte of its record got out. */
  function LinesOf(enc: Encoder, part: Part): seq<Bytes> {
    match part
    case Old(bytes) => Lines(bytes)
    case Line(event, _, _, _) =>
      var n := Shown(enc, part);
      if n == 0 then [] else [enc(event)[..n]]
  }

  function Expected(enc: Encoder, parts: seq<Part>): seq<Bytes> {
    if parts == [] then [] else Expected(enc, parts[..|parts| - 1]) + LinesOf(enc, parts[|parts| - 1])
  }

  /** As much of a line as got out: the repair newline first, then some of the record and its newline. */
  lemma GotOut(enc: Encoder, part: Part)
    requires part.Line?
    ensures var body := enc(part.event) + [NL];
      BytesOf(enc, part) == if !part.healed then body[..Min(part.out, |body|)]
                            else if part.out == 0 then []
                            else [NL] + body[..Min(part.out - 1, |body|)]
  {
    var body, line := enc(part.event) + [NL], LineOf(enc, part.event, part.healed);
    if !part.healed {
      assert line == body;
    } else {
      assert line == [NL] + body;
    }
  }

  lemma PartLines(enc: Encoder, part: Part)
    requires LineSafe(enc)
    ensures Lines(BytesOf(enc, part)) == LinesOf(enc, part)
    ensures part.Line? && part.healed ==> Opens(BytesOf(enc, part))
  {
    if part.Line? {
      var payload := enc(part.event);
      GotOut(enc, part);
      if !part.healed {
        PrefixLines(payload, Min(part.out, |payload| + 1));
      } else if part.out > 0 {
        var n := Min(part.out - 1, |payload| + 1);
        PrefixLines(payload, n);
        BlankFirst((payload + [NL])[..n]);
      }
    }
  }

  /** As much as got out of one record and its newline. */
  lemma PrefixLines(payload: Bytes, n: nat)
    requires NL !in payload && n <= |payload| + 1
    ensures var k := Min(n, |payload|); Lines((payload + [NL])[..n]) == if k == 0 then [] else [payload[..k]]
  {
    if n <= |payload| {
      assert (payload + [NL])[..n] == payload[..n];
      LastLine(payload[..n]);
    } else {
      assert (payload + [NL])[..n] == payload + [NL] + [] && payload[..|payload|] == payload;
      NextLine(payload, []);
    }
  }

  /** The discipline the sink keeps within a file: a line begun without a repair newline follows a finished one. */
  ghost predicate Healing(enc: Encoder, parts: seq<Part>) {
    parts == [] ||
    (var init, last := parts[..|parts| - 1], parts[|parts| - 1];
     && Healing(enc, init)
     && (last.Old? ==> init == [])
     && (last.Line? && !last.healed ==> Terminated(Content(enc, init))))
  }

  /** So a file reads back as one line for each of its parts that shows anything, whatever got torn between them. */
  lemma {:induction false} FileLines(enc: Encoder, parts: seq<Part>)
    requires LineSafe(enc) && Healing(enc, parts)
    ensures Lines(Content(enc, parts)) == Expected(enc, parts)
  {
    if parts != [] {
      var init, last := parts[..|parts| - 1], parts[|parts| - 1];
      FileLines(enc, init);
      PartLines(enc, last);
      LinesJoin(Content(enc, init), BytesOf(enc, last));
    }
  }

  lemma AppendContent(enc: Encoder, parts: seq<Part>, part: Part)
    ensures Content(enc, parts + [part]) == Content(enc, parts) + BytesOf(enc, part)
    ensures Expected(enc, parts + [part]) == Expected(enc, parts) + LinesOf(enc, part)
    ensures Healing(enc, parts + [part]) <==>
              Healing(enc, parts) && (part.Old? ==> parts == [])
              && (part.Line? && !part.healed ==> Terminated(Content(enc, parts)))
  {
    assert (parts + [part])[..|parts|] == parts;
  }

  // ----- a file found unfinished -----

  /** A record put without a repair newline onto a file whose last line was found unfinished. */
  predicate Glued(parts: seq<Part>) {
    |parts| >= 2 && parts[0].Old? && !Terminated(parts[0].bytes) && parts[1].Line? && !parts[1].healed
  }

  predicate LoneOld(parts: seq<Part>) {
    |parts| == 1 && parts[0].Old?
  }

  /** The file as a reader meets it: what was found and the record glued to it are one piece. */
  function Settled(enc: Encoder, parts: seq<Part>): seq<Part> {
    if Glued(parts) then [Old(parts[0].bytes + BytesOf(enc, parts[1]))] + parts[2..] else parts
  }

  lemma SettledNext(enc: Encoder, parts: seq<Part>, part: Part)
    requires !(LoneOld(parts) && Glued(parts + [part]))
    ensures Settled(enc, parts + [part]) == Settled(enc, parts) + [part]
  {
    var more := parts + [part];
    if |parts| >= 2 {
      assert more[0] == parts[0] && more[1] == parts[1] && more[2..] == parts[2..] + [part];
    }
  }

  lemma OldAlone(enc: Encoder, b: Bytes)
    ensures Content(enc, [Old(b)]) == b && Healing(enc, [Old(b)])
  {
    assert [Old(b)][..0] == [];
    assert [] + b == b;
  }

  lemma GluedAlone(enc: Encoder, parts: seq<Part>, part: Part)
    requires LoneOld(parts) && Glued(parts + [part])
    ensures Settled(enc, parts + [part]) == [Old(parts[0].bytes + BytesOf(enc, part))]
    ensures Content(enc, parts + [part]) == parts[0].bytes + BytesOf(enc, part)
  {
    assert parts == [Old(parts[0].bytes)];
    OldAlone(enc, parts[0].bytes);
    AppendContent(enc, parts, part);
    assert (parts + [part])[2..] == [];
  }

  /** The bytes are the same. */
  lemma {:induction false} SettledContent(enc: Encoder, parts: seq<Part>)
    ensures Content(enc, Settled(enc, parts)) == Content(enc, parts)
  {
    if parts != [] {
      var init, last := parts[..|parts| - 1], parts[|parts| - 1];
      assert parts == init + [last];
      SettledContent(enc, init);
      if LoneOld(init) && Glued(parts) {
        GluedAlone(enc, init, last);
        OldAlone(enc, init[0].bytes + BytesOf(enc, last));
      } else {
        SettledNext(enc, init, last);
        AppendContent(enc, Settled(enc, init), last);
        AppendContent(enc, init, last);
      }
    }
  }

  /** The repair rule goes on holding: a line is begun unrepaired on a finished file, or as the first on one just found. */
  lemma SettledHeals(enc: Encoder, parts: seq<Part>, part: Part)
    requires Healing(enc, Settled(enc, parts)) && part.Line?
    requires !part.healed ==> Terminated(Content(enc, parts)) || LoneOld(parts)
    ensures Healing(enc, Settled(enc, parts + [part]))
  {
    if LoneOld(parts) && Glued(parts + [part]) {
      GluedAlone(enc, parts, part);
      OldAlone(enc, parts[0].bytes + BytesOf(enc, part));
    } else {
      SettledNext(enc, parts, part);
      SettledContent(enc, parts);
      AppendContent(enc, Settled(enc, parts), part);
      if LoneOld(parts) {
        OldAlone(enc, parts[0].bytes);
        assert parts == [Old(parts[0].bytes)];
      }
    }
  }

  /** So any file the sink wrote to reads as one line for each part of it that shows anything, once it is settled. */
  lemma SettledLines(enc: Encoder, parts: seq<Part>)
    requires LineSafe(enc) && Healing(enc, Settled(enc, parts))
    ensures Lines(Content(enc, parts)) == Expected(enc, Settled(enc, parts))
  {
    SettledContent(enc, parts);
    FileLines(enc, Settled(enc, parts));
  }

  lemma ExpectedLast(enc: Encoder, parts: seq<Part>, last: Part)
    ensures Expected(enc, parts + [last]) == Expected(enc, parts) + LinesOf(enc, last)
  {
    assert (parts + [last])[..|parts|] == parts;
  }

  /** What is gathered part by part is gathered alike from two runs of parts. */
  lemma {:induction false} GatherJoin(all: seq<Part> -> seq<Bytes>, each: Part -> seq<Bytes>, a: seq<Part>, b: seq<Part>)
    requires all([]) == []
    requires forall parts, last :: all(parts + [last]) == all(parts) + each(last)
    ensures all(a + b) == all(a) + all(b)
    decreases |b|
  {
    if b == [] {
      assert a + b == a;
    } else {
      var init, last := b[..|b| - 1], b[|b| - 1];
      GatherJoin(all, each, a, init);
      assert b == init + [last];
      ConcatAssoc(a, init, [last]);
      ConcatAssoc(all(a), all(init), each(last));
    }
  }

  lemma ExpectedJoin(enc: Encoder, a: seq<Part>, b: seq<Part>)
    ensures Expected(enc, a + b) == Expected(enc, a) + Expected(enc, b)
  {
    var all, each := (parts: seq<Part>) => Expected(enc, parts), (part: Part) => LinesOf(enc, part);
    forall parts, last
      ensures all(parts + [last]) == all(parts) + each(last)
    {
      ExpectedLast(enc, parts, last);
    }
    GatherJoin(all, each, a, b);
  }

  // ----- complete lines -----

  /** A line the record of which got out whole. */
  predicate CompleteLine(enc: Encoder, part: Part) {
    part.Line? && Shown(enc, part) == |enc(part.event)|
  }

  /** No spelling is empty. */
  lemma SpeltOut(enc: Encoder, e: Event)
    requires LineSafe(enc)
    ensures enc(e) != []
  {
    var other := Event(e.number + 1, e.stamp, e.kind);
    assert enc(e) <= enc(other) ==> e == other;
  }

  /** What a written line is read back as: itself. */
  lemma CompleteIsRead(enc: Encoder, part: Part)
    requires LineSafe(enc) && CompleteLine(enc, part)
    ensures LinesOf(enc, part) == [enc(part.event)]
  {
    SpeltOut(enc, part.event);
    assert enc(part.event)[..|enc(part.event)|] == enc(part.event);
  }

  /** A line some record is spelt as. */
  ghost predicate Parses(enc: Encoder, line: Bytes) {
    exists e :: enc(e) == line
  }

  /** A torn line is no record at all. */
  lemma TornDoesNotParse(enc: Encoder, part: Part)
    requires LineSafe(enc) && part.Line? && !CompleteLine(enc, part)
    ensures forall line :: line in LinesOf(enc, part) ==> !Parses(enc, line)
  {
    var n, spelt := Shown(enc, part), enc(part.event);
    var shown := spelt[..n];
    assert shown <= spelt && |shown| < |spelt|;
    forall e
      ensures enc(e) != shown
    {
      assert enc(e) <= spelt ==> e == part.event;
    }
  }

  /** Lines that are no record. */
  ghost function Unparsable(enc: Encoder, lines: seq<Bytes>): nat {
    if lines == [] then 0
    else Unparsable(enc, lines[..|lines| - 1]) + if Parses(enc, lines[|lines| - 1]) then 0 else 1
  }

  /** Writes, or syncs after them, that failed. */
  function FailedWrites(parts: seq<Part>): nat {
    if parts == [] then 0
    else FailedWrites(parts[..|parts| - 1]) + if parts[|parts| - 1].Line? && !parts[|parts| - 1].ok then 1 else 0
  }

  /** Lines of what was there before that are no record. */
  ghost function OldUnparsable(enc: Encoder, parts: seq<Part>): nat {
    if parts == [] then 0
    else OldUnparsable(enc, parts[..|parts| - 1])
         + if parts[|parts| - 1].Old? then Unparsable(enc, Lines(parts[|parts| - 1].bytes)) else 0
  }

  lemma {:induction false} UnparsableJoin(enc: Encoder, a: seq<Bytes>, b: seq<Bytes>)
    ensures Unparsable(enc, a + b) == Unparsable(enc, a) + Unparsable(enc, b)
  {
    if b == [] {
      assert a + b == a;
    } else {
      var init := b[..|b| - 1];
      UnparsableJoin(enc, a, init);
      assert (a + b)[..|a + b| - 1] == a + init;
    }
  }

  /** A part whose write succeeded got its whole line out. */
  predicate Faithful(enc: Encoder, part: Part) {
    part.Line? && part.ok ==> part.out == |LineOf(enc, part.event, part.healed)|
  }

  lemma FaithfulIsComplete(enc: Encoder, part: Part)
    requires part.Line? && part.ok && Faithful(enc, part)
    ensures CompleteLine(enc, part)
  {
  }

  /** A write that got some of its record out, and not all. */
  predicate Torn(enc: Encoder, part: Part) {
    part.Line? && 0 < Shown(enc, part) < |enc(part.event)|
  }

  function TornWrites(enc: Encoder, parts: seq<Part>): nat {
    if parts == [] then 0
    else TornWrites(enc, parts[..|parts| - 1]) + if Torn(enc, parts[|parts| - 1]) then 1 else 0
  }

  /** The lines that are no record: one for each torn write, and those that were there before. */
  lemma {:induction false} TornLinesCounted(enc: Encoder, parts: seq<Part>)
    requires LineSafe(enc)
    ensures Unparsable(enc, Expected(enc, parts)) == TornWrites(enc, parts) + OldUnparsable(enc, parts)
  {
    if parts != [] {
      var init, last := parts[..|parts| - 1], parts[|parts| - 1];
      TornLinesCounted(enc, init);
      UnparsableJoin(enc, Expected(enc, init), LinesOf(enc, last));
      if last.Line? {
        OneLineCount(enc, last);
      }
    }
  }

  lemma OneLineCount(enc: Encoder, part: Part)
    requires LineSafe(enc) && part.Line?
    ensures Unparsable(enc, LinesOf(enc, part)) == if Torn(enc, part) then 1 else 0
  {
    var lines := LinesOf(enc, part);
    if CompleteLine(enc, part) {
      CompleteIsRead(enc, part);
      assert lines[..0] == [] && Parses(enc, lines[0]);
    } else if lines != [] {
      TornDoesNotParse(enc, part);
      assert lines[..0] == [] && lines[0] in lines;
    }
  }

  /** Torn writes never outnumber failed ones. */
  lemma {:induction false} TornWritesFailed(enc: Encoder, parts: seq<Part>)
    requires forall i :: 0 <= i < |parts| ==> Faithful(enc, parts[i])
    ensures TornWrites(enc, parts) <= FailedWrites(parts)
  {
    if parts != [] {
      var last := parts[|parts| - 1];
      TornWritesFailed(enc, parts[..|parts| - 1]);
      if last.Line? && last.ok {
        FaithfulIsComplete(enc, last);
      }
    }
  }
}
