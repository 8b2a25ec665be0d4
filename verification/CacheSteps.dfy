/**
 * The field-type cache used by several calls at once:
 * crates/bugwarden-core/src/custom_fields.rs, `FieldTypeCache`. Its lock is held
 * while the cache is read or an answer is put in it, and never across a request,
 * so calls come between one another's requests.
 */
module CacheSteps {
  import opened Prelude
  import opened CustomFields
  import opened Json

  type Kinds = map<string, CustomFieldKind>

  /** One call: the names it is about, what it took from the cache, what it has still to ask for, what it will return. */
  datatype Caller = Caller(names: set<string>, seen: Kinds, todo: seq<string>, out: Kinds)

  /** A request of one call, in the order the answers were put in the cache. */
  datatype Event = Event(caller: nat, lookup: Lookup)

  datatype State = State(known: Kinds, log: seq<Event>, callers: map<nat, Caller>)

  // ----- the steps -----

  predicate Init(s: State) {
    s == State(map[], [], map[])
  }

  function Cached(known: Kinds, names: seq<string>): Kinds {
    map name | name in names && name in known :: known[name]
  }

  function Open(names: seq<string>): Kinds {
    map name | name in names :: Unknown
  }

  /** A call just begun. */
  function Beginner(known: Kinds, names: seq<string>, afresh: bool, todo: seq<string>): Caller {
    var seen := if afresh then map[] else Cached(known, names);
    Caller(NameSet(names), seen, todo, Open(todo) + seen)
  }

  /** A call begins: `kinds` takes what is cached, `kinds_fresh` nothing; the rest is to be asked for. */
  ghost predicate Begins(s: State, c: nat, names: seq<string>, afresh: bool, todo: seq<string>, s': State) {
    var k := Beginner(s.known, names, afresh, todo);
    && c !in s.callers && Distinct(names) && Distinct(todo) && NameSet(todo) == k.names - k.seen.Keys
    && s' == s.(callers := s.callers[c := k])
  }

  /** The next request a call makes. */
  function NextLookup(k: Caller, answer: Option<Value>): Lookup {
    Lookup(k.todo[..Min(LOOKUP_CHUNK, |k.todo|)], answer)
  }

  function Answered(k: Caller, answer: Option<Value>): Caller {
    k.(todo := k.todo[Min(LOOKUP_CHUNK, |k.todo|)..], out := k.out + Found(NextLookup(k, answer)))
  }

  /** The next request of a call is answered, or fails, and is put in the cache. */
  predicate Settles(s: State, c: nat, answer: Option<Value>, s': State) {
    && c in s.callers && s.callers[c].todo != []
    && var k := s.callers[c];
       var l := NextLookup(k, answer);
       s' == State(After(s.known, l), s.log + [Event(c, l)], s.callers[c := Answered(k, answer)])
  }

  ghost predicate Next(s: State, s': State) {
    || (exists c, names, afresh, todo :: Begins(s, c, names, afresh, todo, s'))
    || (exists c, answer :: Settles(s, c, answer, s'))
  }

  ghost predicate StepAt(run: seq<State>, i: nat)
    requires i + 1 < |run|
  {
    Next(run[i], run[i + 1])
  }

  ghost predicate Behavior(run: seq<State>) {
    |run| > 0 && Init(run[0]) && forall i :: 0 <= i < |run| - 1 ==> StepAt(run, i)
  }

  // ----- the order of settling, and one call's share of it -----

  function Order(log: seq<Event>): seq<Lookup> {
    if log == [] then [] else Order(log[..|log| - 1]) + [log[|log| - 1].lookup]
  }

  function Own(log: seq<Event>, c: nat): seq<Lookup> {
    if log == [] then []
    else Own(log[..|log| - 1], c) + if log[|log| - 1].caller == c then [log[|log| - 1].lookup] else []
  }

  lemma LogNext(log: seq<Event>, e: Event, c: nat)
    ensures Order(log + [e]) == Order(log) + [e.lookup]
    ensures Own(log + [e], c) == Own(log, c) + if e.caller == c then [e.lookup] else []
  {
    assert (log + [e])[..|log|] == log;
  }

  lemma ReplayNext(log: seq<Lookup>, l: Lookup)
    ensures Replay(log + [l]) == After(Replay(log), l)
  {
    assert (log + [l])[..|log|] == log;
  }

  // ----- the invariant -----

  /** What a call says of a name: what it found cached, else what its own requests settled. */
  function Says(k: Caller, own: Kinds, name: string): CustomFieldKind {
    if name in k.seen then k.seen[name] else if name in own then own[name] else Unknown
  }

  ghost predicate CallerOk(k: Caller, own: Kinds) {
    && k.out.Keys == k.names && Distinct(k.todo)
    && (forall name :: name in k.names ==> k.out[name] == Says(k, own, name))
    && NameSet(k.todo) <= k.names && NameSet(k.todo) !! k.seen.Keys && NameSet(k.todo) !! own.Keys
  }

  ghost predicate CallersOk(s: State) {
    forall c :: c in s.callers ==> CallerOk(s.callers[c], Replay(Own(s.log, c)))
  }

  /** Some request was answered so. */
  ghost predicate Told(log: seq<Lookup>, name: string, kind: CustomFieldKind) {
    exists i :: 0 <= i < |log| && name in Found(log[i]) && Found(log[i])[name] == kind
  }

  ghost predicate AllTold(log: seq<Lookup>, kinds: Kinds) {
    forall name :: name in kinds ==> Told(log, name, kinds[name])
  }

  ghost predicate NoneInvented(s: State) {
    && AllTold(Order(s.log), s.known)
    && forall c :: c in s.callers ==> AllTold(Order(s.log), s.callers[c].seen)
  }

  ghost predicate Inv(s: State) {
    s.known == Replay(Order(s.log)) && CallersOk(s) && NoneInvented(s)
  }

  lemma BeginnerOk(known: Kinds, names: seq<string>, afresh: bool, todo: seq<string>)
    requires var k := Beginner(known, names, afresh, todo); Distinct(todo) && NameSet(todo) == k.names - k.seen.Keys
    ensures CallerOk(Beginner(known, names, afresh, todo), map[])
  {
    var k := Beginner(known, names, afresh, todo);
    assert Open(todo).Keys == NameSet(todo);
    forall name | name in k.names
      ensures k.out[name] == Says(k, map[], name)
    {
      assert name in k.seen || name in NameSet(todo);
    }
  }

  lemma SeenIsTold(log: seq<Lookup>, known: Kinds, seen: Kinds)
    requires AllTold(log, known)
    requires forall name :: name in seen ==> name in known && known[name] == seen[name]
    ensures AllTold(log, seen)
  {
  }

  lemma BeginKeeps(s: State, c: nat, names: seq<string>, afresh: bool, todo: seq<string>, s': State)
    requires Inv(s) && Begins(s, c, names, afresh, todo, s') && Own(s.log, c) == []
    ensures Inv(s')
  {
    var k := Beginner(s.known, names, afresh, todo);
    BeginnerOk(s.known, names, afresh, todo);
    SeenIsTold(Order(s.log), s.known, k.seen);
    assert Replay([]) == map[];
    forall d | d in s'.callers
      ensures CallerOk(s'.callers[d], Replay(Own(s.log, d))) && AllTold(Order(s.log), s'.callers[d].seen)
    {
      assert s'.callers[d] == if d == c then k else s.callers[d];
    }
  }

  /** The chunk asked for and what is left of the list have no name in common. */
  lemma ChunkApart(todo: seq<string>, n: nat)
    requires n <= |todo| && Distinct(todo)
    ensures Distinct(todo[n..])
    ensures NameSet(todo) == NameSet(todo[..n]) + NameSet(todo[n..]) && NameSet(todo[..n]) !! NameSet(todo[n..])
  {
    assert todo == todo[..n] + todo[n..];
    forall i, j | 0 <= i < n && 0 <= j < |todo| - n
      ensures todo[..n][i] != todo[n..][j]
    {
    }
  }

  lemma FoundWithin(l: Lookup)
    ensures Found(l).Keys <= NameSet(l.names)
  {
  }

  /** One more answer, in names alone. */
  lemma SaysNext(k: Caller, own: Kinds, l: Lookup, name: string)
    requires name in k.names && k.out.Keys == k.names && k.out[name] == Says(k, own, name)
    requires NameSet(l.names) !! k.seen.Keys && NameSet(l.names) !! own.Keys && Found(l).Keys <= NameSet(l.names)
    ensures (k.out + Found(l))[name] == Says(k, After(own, l), name)
  {
    assert name in NameSet(l.names) <==> name in l.names;
    assert name in After(own, l) <==> name in Found(l) || (name in own && name !in l.names);
  }

  lemma AnswerKeepsCaller(k: Caller, own: Kinds, answer: Option<Value>)
    requires CallerOk(k, own) && k.todo != []
    ensures CallerOk(Answered(k, answer), After(own, NextLookup(k, answer)))
  {
    var n, l := Min(LOOKUP_CHUNK, |k.todo|), NextLookup(k, answer);
    ChunkApart(k.todo, n);
    FoundWithin(l);
    forall name | name in k.names
      ensures (k.out + Found(l))[name] == Says(k, After(own, l), name)
    {
      SaysNext(k, own, l, name);
    }
    assert After(own, l).Keys <= own.Keys + NameSet(l.names);
  }

  lemma ToldStays(log: seq<Lookup>, l: Lookup, kinds: Kinds)
    requires AllTold(log, kinds)
    ensures AllTold(log + [l], kinds)
  {
    var more := log + [l];
    forall name | name in kinds
      ensures Told(more, name, kinds[name])
    {
      var i :| 0 <= i < |log| && name in Found(log[i]) && Found(log[i])[name] == kinds[name];
      assert more[i] == log[i];
    }
  }

  lemma ToldNext(log: seq<Lookup>, l: Lookup, known: Kinds)
    requires AllTold(log, known)
    ensures AllTold(log + [l], After(known, l))
  {
    ToldStays(log, l, known);
    var more := log + [l];
    forall name | name in Found(l)
      ensures Told(more, name, Found(l)[name])
    {
      assert more[|log|] == l;
    }
  }

  lemma SettleKeepsCaller(s: State, c: nat, l: Lookup, answer: Option<Value>, d: nat, after: Caller)
    requires c in s.callers && d in s.callers && s.callers[c].todo != [] && l == NextLookup(s.callers[c], answer)
    requires CallerOk(s.callers[d], Replay(Own(s.log, d)))
    requires after == if d == c then Answered(s.callers[c], answer) else s.callers[d]
    ensures CallerOk(after, Replay(Own(s.log + [Event(c, l)], d)))
  {
    var own := Own(s.log, d);
    LogNext(s.log, Event(c, l), d);
    if d == c {
      ReplayNext(own, l);
      AnswerKeepsCaller(s.callers[c], Replay(own), answer);
    } else {
      assert own + [] == own;
    }
  }

  lemma SettleKeeps(s: State, c: nat, answer: Option<Value>, s': State)
    requires Inv(s) && Settles(s, c, answer, s')
    ensures Inv(s')
  {
    var k := s.callers[c];
    var l := NextLookup(k, answer);
    LogNext(s.log, Event(c, l), c);
    ReplayNext(Order(s.log), l);
    ToldNext(Order(s.log), l, s.known);
    forall d | d in s'.callers
      ensures CallerOk(s'.callers[d], Replay(Own(s'.log, d)))
    {
      SettleKeepsCaller(s, c, l, answer, d, s'.callers[d]);
    }
    forall d | d in s'.callers
      ensures AllTold(Order(s'.log), s'.callers[d].seen)
    {
      ToldStays(Order(s.log), l, s.callers[d].seen);
    }
  }

  /** A call that has not begun has asked for nothing. */
  ghost predicate OnlyCallersAsk(s: State) {
    forall c :: c !in s.callers ==> Own(s.log, c) == []
  }

  lemma NextKeeps(s: State, s': State)
    requires Inv(s) && OnlyCallersAsk(s) && Next(s, s')
    ensures Inv(s') && OnlyCallersAsk(s')
  {
    if c, answer :| Settles(s, c, answer, s') {
      SettleKeeps(s, c, answer, s');
      forall d | d !in s'.callers
        ensures Own(s'.log, d) == []
      {
        LogNext(s.log, s'.log[|s.log|], d);
      }
    } else {
      var c, names, afresh, todo :| Begins(s, c, names, afresh, todo, s');
      BeginKeeps(s, c, names, afresh, todo, s');
    }
  }

  lemma {:induction false} InvHolds(run: seq<State>, i: nat)
    requires Behavior(run) && i < |run|
    ensures Inv(run[i]) && OnlyCallersAsk(run[i])
  {
    if i > 0 {
      InvHolds(run, i - 1);
      assert StepAt(run, i - 1);
      NextKeeps(run[i - 1], run[i]);
    }
  }

  // ----- what holds however calls interleave -----

  /**
   * At every moment, whatever calls are under way: the cache holds exactly the
   * names whose answer was put in it last settled them, with that answer.
   */
  lemma CacheIsLastSettledOfAll(run: seq<State>, i: nat, name: string)
    requires Behavior(run) && i < |run|
    ensures var known, last := run[i].known, LastAsked(Order(run[i].log), name);
      && (name in known <==> last.Some? && name in Found(last.value))
      && (name in known ==> known[name] == Found(last.value)[name] && known[name] != Unknown)
  {
    InvHolds(run, i);
    CacheIsLastSettled(Order(run[i].log), name);
  }

  /**
   * A call that is done answers every name it is about, from what was cached
   * when it began or from its own requests, whatever other calls did meanwhile.
   */
  lemma CallSeesItsOwnAnswers(run: seq<State>, i: nat, c: nat, name: string)
    requires Behavior(run) && i < |run| && c in run[i].callers && run[i].callers[c].todo == []
    ensures var k, own := run[i].callers[c], Own(run[i].log, c);
      && k.out.Keys == k.names
      && (name in k.names && name in k.seen ==> k.out[name] == k.seen[name])
      && (name in k.names && name !in k.seen ==>
            var last := LastAsked(own, name);
            k.out[name] == if last.Some? && name in Found(last.value) then Found(last.value)[name] else Unknown)
  {
    InvHolds(run, i);
    CacheIsLastSettled(Own(run[i].log, c), name);
  }

  /** No call returns a kind that no request was told. */
  lemma NoKindIsInvented(run: seq<State>, i: nat, c: nat, name: string)
    requires Behavior(run) && i < |run| && c in run[i].callers && name in run[i].callers[c].out
    ensures var kind := run[i].callers[c].out[name]; kind == Unknown || Told(Order(run[i].log), name, kind)
  {
    InvHolds(run, i);
    var k, own := run[i].callers[c], Own(run[i].log, c);
    if name !in k.seen && name in Replay(own) {
      CacheIsLastSettled(own, name);
      LastIsInLog(own, name);
      OwnIsInOrder(run[i].log, c, LastAsked(own, name).value);
    }
  }

  lemma {:induction false} LastIsInLog(log: seq<Lookup>, name: string)
    requires LastAsked(log, name).Some?
    ensures LastAsked(log, name).value in log
  {
    if name !in log[|log| - 1].names {
      LastIsInLog(log[..|log| - 1], name);
    }
  }

  lemma {:induction false} OwnIsInOrder(log: seq<Event>, c: nat, l: Lookup)
    requires l in Own(log, c)
    ensures l in Order(log)
  {
    if l in Own(log[..|log| - 1], c) {
      OwnIsInOrder(log[..|log| - 1], c, l);
    }
  }
}
