/** The policy's glob matcher: crates/bugwarden-core/src/policy.rs, `glob_match`. */
module Glob {

  /**
   * What a glob means, independently of how it is searched for: `*` stands for
   * any substring, every other character for itself, and the whole value is
   * covered.
   */
  predicate Covers(pat: string, val: string)
    decreases |pat|
  {
    if pat == [] then val == []
    else if pat[0] == '*' then exists k :: 0 <= k <= |val| && Covers(pat[1..], val[k..])
    else val != [] && val[0] == pat[0] && Covers(pat[1..], val[1..])
  }

  /** Covering a tail of `val` from `k` on, as the backtracking search asks it. */
  ghost predicate CoversFrom(pat: string, p: nat, val: string, s: nat)
    requires p <= |pat| && s <= |val|
  {
    Covers(pat[p..], val[s..])
  }

  /** The pattern from `p` covers some tail of `val` starting at `from` or later. */
  ghost predicate Swallows(pat: string, p: nat, val: string, from: nat)
    requires p <= |pat|
  {
    exists k :: from <= k <= |val| && CoversFrom(pat, p, val, k)
  }

  lemma StarAt(pat: string, p: nat, val: string, s: nat)
    requires p < |pat| && s <= |val| && pat[p] == '*'
    ensures CoversFrom(pat, p, val, s) <==> Swallows(pat, p + 1, val, s)
  {
    var q := p + 1;
    assert pat[p..][1..] == pat[q..];
    if CoversFrom(pat, p, val, s) {
      var k :| 0 <= k <= |val[s..]| && Covers(pat[p..][1..], val[s..][k..]);
      assert val[s..][k..] == val[s + k..];
      assert CoversFrom(pat, q, val, s + k);
    }
    forall k | s <= k <= |val| && CoversFrom(pat, q, val, k)
      ensures CoversFrom(pat, p, val, s)
    {
      assert val[s..][k - s..] == val[k..];
    }
  }

  lemma LiteralAt(pat: string, p: nat, val: string, s: nat)
    requires p < |pat| && s <= |val| && pat[p] != '*'
    ensures CoversFrom(pat, p, val, s) <==> s < |val| && val[s] == pat[p] && CoversFrom(pat, p + 1, val, s + 1)
  {
    assert pat[p..][1..] == pat[p + 1..];
    if s < |val| {
      assert val[s..][1..] == val[s + 1..];
    }
  }

  ghost predicate StarFree(pat: string, from: nat, to: nat)
    requires to <= |pat|
  {
    forall i :: from <= i < to ==> pat[i] != '*'
  }

  /** A star-free stretch of the pattern is covered only by itself. */
  lemma {:induction false} LiteralRun(pat: string, p: nat, n: nat, val: string, s: nat)
    requires p + n <= |pat| && s <= |val| && StarFree(pat, p, p + n)
    requires CoversFrom(pat, p, val, s)
    ensures s + n <= |val| && CoversFrom(pat, p + n, val, s + n)
    decreases n
  {
    if n > 0 {
      LiteralAt(pat, p, val, s);
      LiteralRun(pat, p + 1, n - 1, val, s + 1);
    }
  }

  /**
   * Why remembering only the LAST star loses nothing: once a later star is
   * reached at `(p, s)` with the stretch since the earlier one matched at its
   * leftmost place, whatever a longer swallow of the earlier star could cover,
   * the later star covers from `s` as well.
   */
  lemma LaterStarSubsumes(pat: string, star: nat, p: nat, val: string, resume: nat, s: nat)
    requires star < p < |pat| && pat[p] == '*' && StarFree(pat, star + 1, p)
    requires resume <= s <= |val| && s - resume == p - star - 1
    requires Swallows(pat, star + 1, val, resume + 1)
    ensures CoversFrom(pat, p, val, s)
  {
    var n, q := p - star - 1, star + 1;
    var k :| resume + 1 <= k <= |val| && CoversFrom(pat, q, val, k);
    LiteralRun(pat, q, n, val, k);
    StarAt(pat, p, val, k + n);
    StarAt(pat, p, val, s);
  }

  /** The longer swallows of the last star (`-1` when none was met) not tried yet. */
  ghost predicate Untried(pat: string, star: int, val: string, resume: nat) {
    0 <= star < |pat| && Swallows(pat, star + 1, val, resume + 1)
  }

  /** Giving the last star one character more splits what is left to try in two. */
  lemma OneMore(pat: string, star: nat, val: string, resume: nat)
    requires star < |pat| && resume < |val|
    ensures Untried(pat, star, val, resume)
         <==> CoversFrom(pat, star + 1, val, resume + 1) || Untried(pat, star, val, resume + 1)
  {
    var q := star + 1;
    if Untried(pat, star, val, resume) {
      var k :| resume + 1 <= k <= |val| && CoversFrom(pat, q, val, k);
      assert k == resume + 1 || resume + 2 <= k;
    }
    if CoversFrom(pat, q, val, resume + 1) {
      assert Swallows(pat, q, val, resume + 1);
    }
  }

  /** The loop's odometer: `resume` turns over whenever `p` is set back. */
  function Turn(resume: nat, p: nat, pat: string): nat {
    if resume == 0 then p else |pat| + 1 + Turn(resume - 1, p, pat)
  }

  lemma {:induction false} TurnIsProduct(resume: nat, p: nat, pat: string)
    ensures Turn(resume, p, pat) == resume * (|pat| + 1) + p
  {
    if resume > 0 {
      TurnIsProduct(resume - 1, p, pat);
    }
  }

  lemma {:induction false} TurnGrows(resume: nat, p: nat, resume': nat, p': nat, pat: string)
    requires p <= |pat| && p' <= |pat|
    requires resume < resume' || (resume == resume' && p < p')
    ensures Turn(resume, p, pat) < Turn(resume', p', pat)
  {
    if resume > 0 {
      TurnGrows(resume - 1, p, resume' - 1, p', pat);
    }
  }

  /** Only stars remain: what the pattern's tail must be once the value is used up. */
  lemma {:induction false} TailCovers(pat: string, p: nat)
    requires p <= |pat|
    ensures Covers(pat[p..], []) <==> forall i :: p <= i < |pat| ==> pat[i] == '*'
    decreases |pat| - p
  {
    if p < |pat| {
      TailCovers(pat, p + 1);
      assert pat[p..][1..] == pat[p + 1..];
      if pat[p] == '*' {
        var empty: string := [];
        assert empty[0..] == [];
        assert Covers(pat[p + 1..], []) ==> Covers(pat[p..], []) by {
          if Covers(pat[p + 1..], []) {
            assert Covers(pat[p..][1..], empty[0..]);
          }
        }
      }
    }
  }

  lemma SwallowsNow(pat: string, q: nat, val: string, s: nat)
    requires q <= |pat| && s <= |val|
    ensures Swallows(pat, q, val, s) <==> CoversFrom(pat, q, val, s) || Swallows(pat, q, val, s + 1)
  {
    if Swallows(pat, q, val, s) {
      var k :| s <= k <= |val| && CoversFrom(pat, q, val, k);
    }
  }

  /** Neither a star nor the value's next character: nothing is covered from here. */
  lemma Mismatch(pat: string, p: nat, val: string, s: nat)
    requires p <= |pat| && s < |val| && (p < |pat| ==> pat[p] != '*' && pat[p] != val[s])
    ensures !CoversFrom(pat, p, val, s)
  {
    if p < |pat| {
      LiteralAt(pat, p, val, s);
    }
  }

  /** What the search knows at the head of its loop; `star` is `-1` before the first star. */
  ghost predicate Searching(pat: string, val: string, p: nat, s: nat, star: int, resume: nat) {
    && p <= |pat| && resume <= s <= |val|
    && -1 <= star <= p
    && (star >= 0 ==> star < p && pat[star] == '*' && s - resume == p - star - 1 && StarFree(pat, star + 1, p))
    && (Covers(pat, val) <==> CoversFrom(pat, p, val, s) || Untried(pat, star, val, resume))
  }

  lemma StarTurn(pat: string, val: string, p: nat, s: nat, star: int, resume: nat)
    requires Searching(pat, val, p, s, star, resume) && s < |val| && p < |pat| && pat[p] == '*'
    ensures Searching(pat, val, p + 1, s, p, s)
  {
    if Untried(pat, star, val, resume) {
      LaterStarSubsumes(pat, star, p, val, resume, s);
    }
    StarAt(pat, p, val, s);
    SwallowsNow(pat, p + 1, val, s);
  }

  lemma LiteralTurn(pat: string, val: string, p: nat, s: nat, star: int, resume: nat)
    requires Searching(pat, val, p, s, star, resume)
    requires s < |val| && p < |pat| && pat[p] != '*' && pat[p] == val[s]
    ensures Searching(pat, val, p + 1, s + 1, star, resume)
  {
    LiteralAt(pat, p, val, s);
  }

  lemma BacktrackTurn(pat: string, val: string, p: nat, s: nat, star: int, resume: nat)
    requires Searching(pat, val, p, s, star, resume) && star >= 0
    requires s < |val| && (p < |pat| ==> pat[p] != '*' && pat[p] != val[s])
    ensures Searching(pat, val, star + 1, resume + 1, star, resume + 1)
  {
    Mismatch(pat, p, val, s);
    OneMore(pat, star, val, resume);
  }

  /** With the value used up, only trailing stars may be left over in the pattern. */
  lemma AtEnd(pat: string, val: string, p: nat, star: int, resume: nat)
    requires Searching(pat, val, p, |val|, star, resume)
    ensures Covers(pat, val) <==> forall i :: p <= i < |pat| ==> pat[i] == '*'
  {
    if Untried(pat, star, val, resume) {
      var n, q := p - star - 1, star + 1;
      var k :| resume + 1 <= k <= |val| && CoversFrom(pat, q, val, k);
      LiteralRun(pat, q, n, val, k);
    }
    assert val[|val|..] == [];
    TailCovers(pat, p);
  }

  /**
   * The iterative search with one remembered star. `steps` counts the turns of
   * its main loop.
   */
  method Search(pat: string, val: string) returns (matched: bool, ghost steps: nat)
    ensures matched <==> Covers(pat, val)
    ensures steps <= (|val| + 1) * (|pat| + 1)
  {
    var p, s := 0, 0;
    var star := -1;
    var resume := 0;
    steps := 0;
    TurnIsProduct(|val| + 1, 0, pat);
    assert pat[0..] == pat && val[0..] == val;
    while s < |val|
      invariant Searching(pat, val, p, s, star, resume)
      invariant steps <= Turn(resume, p, pat)
      decreases |val| - resume, |pat| - p
    {
      ghost var r0, p0 := resume, p;
      if p < |pat| && pat[p] == '*' {
        StarTurn(pat, val, p, s, star, resume);
        star := p;
        p := p + 1;
        resume := s;
      } else if p < |pat| && pat[p] == val[s] {
        LiteralTurn(pat, val, p, s, star, resume);
        p := p + 1;
        s := s + 1;
      } else if star >= 0 {
        BacktrackTurn(pat, val, p, s, star, resume);
        p := star + 1;
        resume := resume + 1;
        s := resume;
      } else {
        Mismatch(pat, p, val, s);
        TurnGrows(resume, p, |val| + 1, 0, pat);
        return false, steps;
      }
      TurnGrows(r0, p0, resume, p, pat);
      steps := steps + 1;
    }
    AtEnd(pat, val, p, star, resume);
    TurnGrows(resume, p, |val| + 1, 0, pat);
    matched := OnlyStars(pat, p);
  }

  /** Whether the pattern has nothing left but stars. */
  method OnlyStars(pat: string, from: nat) returns (only: bool)
    requires from <= |pat|
    ensures only <==> forall i :: from <= i < |pat| ==> pat[i] == '*'
  {
    var p := from;
    while p < |pat| && pat[p] == '*'
      invariant from <= p <= |pat|
      invariant forall i :: from <= i < p ==> pat[i] == '*'
    {
      p := p + 1;
    }
    only := p == |pat|;
  }

  /** A glob against a value, case folded by the caller's `lower` (Unicode lowercasing). */
  predicate Matches(lower: string -> string, pattern: string, value: string) {
    Covers(lower(pattern), lower(value))
  }

  method GlobMatch(lower: string -> string, pattern: string, value: string) returns (matched: bool)
    ensures matched <==> Matches(lower, pattern, value)
  {
    ghost var steps;
    matched, steps := Search(lower(pattern), lower(value));
  }
}
