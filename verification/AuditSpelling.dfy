/**
 * One line-safe spelling of audit records, to show that there is any: no record
 * spells the beginning of another, and none holds a newline.
 */
module AuditSpelling {
  import opened Prelude
  import opened AuditModel

  const STOP: Byte := 48
  const MORE: Byte := 49

  function Count(n: nat): Bytes {
    if n == 0 then [STOP] else [MORE] + Count(n - 1)
  }

  function Signed(n: int): Bytes {
    if n < 0 then [MORE] + Count(-n) else [STOP] + Count(n)
  }

  function Body(b: Bytes): Bytes {
    if b == [] then [STOP] else [MORE] + Count(b[0]) + Body(b[1..])
  }

  function Why(reason: GapReason): Bytes {
    if reason.WriteError? then [STOP] else [MORE]
  }

  function KindOf(kind: Kind): Bytes {
    match kind
    case Gap(dropped, reason) => [STOP] + (Count(dropped) + Why(reason))
    case Entry(body) => [MORE] + Body(body)
  }

  function Spell(e: Event): Bytes {
    Count(e.number) + (Signed(e.stamp) + KindOf(e.kind))
  }

  // ----- no newline -----

  lemma {:induction false} CountClean(n: nat)
    ensures NL !in Count(n)
  {
    if n > 0 {
      CountClean(n - 1);
    }
  }

  lemma {:induction false} BodyClean(b: Bytes)
    ensures NL !in Body(b)
  {
    if b != [] {
      CountClean(b[0]);
      BodyClean(b[1..]);
    }
  }

  lemma SpellClean(e: Event)
    ensures NL !in Spell(e) && |Spell(e)| >= 2
  {
    CountClean(e.number);
    CountClean(if e.stamp < 0 then -e.stamp else e.stamp);
    if e.kind.Gap? {
      CountClean(e.kind.dropped);
    } else {
      BodyClean(e.kind.body);
    }
  }

  // ----- nothing spells the beginning of anything else -----

  lemma Cons(c: Byte, x: Bytes, d: Byte, y: Bytes)
    requires [c] + x <= [d] + y
    ensures c == d && x <= y
  {
    assert ([c] + x)[0] == c && ([d] + y)[0] == d;
    assert ([c] + x)[1..] == x && ([d] + y)[1..] == y;
  }

  lemma {:induction false} CountFirst(n: nat, x: Bytes, m: nat, y: Bytes)
    requires Count(n) + x <= Count(m) + y
    ensures n == m && x <= y
  {
    var a, b := if n == 0 then [] else Count(n - 1), if m == 0 then [] else Count(m - 1);
    ConcatAssoc([if n == 0 then STOP else MORE], a, x);
    ConcatAssoc([if m == 0 then STOP else MORE], b, y);
    assert [] + x == x && [] + y == y;
    Cons(if n == 0 then STOP else MORE, a + x, if m == 0 then STOP else MORE, b + y);
    if n > 0 {
      CountFirst(n - 1, x, m - 1, y);
    }
  }

  lemma SignedFirst(n: int, x: Bytes, m: int, y: Bytes)
    requires Signed(n) + x <= Signed(m) + y
    ensures n == m && x <= y
  {
    var a, b := if n < 0 then -n else n, if m < 0 then -m else m;
    ConcatAssoc([if n < 0 then MORE else STOP], Count(a), x);
    ConcatAssoc([if m < 0 then MORE else STOP], Count(b), y);
    Cons(if n < 0 then MORE else STOP, Count(a) + x, if m < 0 then MORE else STOP, Count(b) + y);
    CountFirst(a, x, b, y);
  }

  lemma {:induction false} BodyFirst(b: Bytes, c: Bytes)
    requires Body(b) <= Body(c)
    ensures b == c
  {
    var x, y := if b == [] then [] else Count(b[0]) + Body(b[1..]), if c == [] then [] else Count(c[0]) + Body(c[1..]);
    if b != [] {
      ConcatAssoc([MORE], Count(b[0]), Body(b[1..]));
    }
    if c != [] {
      ConcatAssoc([MORE], Count(c[0]), Body(c[1..]));
    }
    Cons(if b == [] then STOP else MORE, x, if c == [] then STOP else MORE, y);
    if b != [] {
      CountFirst(b[0], Body(b[1..]), c[0], Body(c[1..]));
      BodyFirst(b[1..], c[1..]);
      assert b == [b[0]] + b[1..] && c == [c[0]] + c[1..];
    }
  }

  lemma KindFirst(k: Kind, l: Kind)
    requires KindOf(k) <= KindOf(l)
    ensures k == l
  {
    var x := if k.Gap? then Count(k.dropped) + Why(k.reason) else Body(k.body);
    var y := if l.Gap? then Count(l.dropped) + Why(l.reason) else Body(l.body);
    Cons(if k.Gap? then STOP else MORE, x, if l.Gap? then STOP else MORE, y);
    if k.Gap? {
      CountFirst(k.dropped, Why(k.reason), l.dropped, Why(l.reason));
      assert Why(k.reason)[0] == Why(l.reason)[0];
    } else {
      BodyFirst(k.body, l.body);
    }
  }

  /** There is a line-safe spelling, of two bytes at least for every record. */
  lemma LineSafeSpelling()
    ensures LineSafe(Spell) && forall e :: |Spell(e)| >= 2
  {
    forall e
      ensures NL !in Spell(e) && |Spell(e)| >= 2
    {
      SpellClean(e);
    }
    forall e, f | Spell(e) <= Spell(f)
      ensures e == f
    {
      CountFirst(e.number, Signed(e.stamp) + KindOf(e.kind), f.number, Signed(f.stamp) + KindOf(f.kind));
      SignedFirst(e.stamp, KindOf(e.kind), f.stamp, KindOf(f.kind));
      KindFirst(e.kind, f.kind);
    }
  }
}
