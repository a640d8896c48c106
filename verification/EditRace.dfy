// src/app.rs: two edits of one column of one spark, the second dispatched while the first is in flight.
module EditRace {
  import opened Prelude
  import opened SparkPatch
  import opened SparkEdits

  // ---- Steps of single-column edits of one spark -----------------------------------------------------

  function Start(row: Row): State {
    State(map["sp" := row], map["sp" := row], map[], 0, None)
  }

  function Set(c: Column, v: Value): Patch { Patch(map[c := v], None) }

  function With(row: Row, c: Column, v: Value): Row { Row(row.cells[c := v], row.doc) }

  function Sending(c: Column, v: Value, was: Value, phase: Phase): Request {
    Request("sp", Set(c, v), Set(c, was), Update(map[c := v], None), phase)
  }

  lemma WithTwice(row: Row, c: Column, v: Value, w: Value)
    ensures With(With(row, c, v), c, w) == With(row, c, w)
    ensures With(row, c, row.cells[c]) == row
  {
    assert row.cells[c := v][c := w] == row.cells[c := w];
    assert row.cells[c := row.cells[c]] == row.cells;
  }

  lemma SetOne(row: Row, c: Column, v: Value)
    requires row.cells[c] != v && Storable(c, v)
    ensures Applied(row, Set(c, v)) == With(row, c, v)
    ensures Prior(row, Set(c, v)) == Set(c, row.cells[c]) && !IsEmpty(Prior(row, Set(c, v))) && !IsEmpty(Set(c, v))
    ensures forall cached :: ToUpdate(Set(c, v), cached) == Update(map[c := v], None)
  {
    assert Prior(row, Set(c, v)).sets == map[c := row.cells[c]];
    assert c in Prior(row, Set(c, v)).sets && c in Set(c, v).sets;
    forall cached ensures ToUpdate(Set(c, v), cached) == Update(map[c := v], None) {
      assert ToUpdate(Set(c, v), cached).sets == map[c := v];
    }
  }

  lemma SetStep(s: State, c: Column, v: Value)
    requires "sp" in s.cache && s.cache["sp"].cells[c] != v && Storable(c, v)
    ensures Step(s, Dispatch("sp", Set(c, v), true)) ==
            s.(cache := s.cache["sp" := With(s.cache["sp"], c, v)],
               pending := s.pending[s.next := Sending(c, v, s.cache["sp"].cells[c], Sent)],
               next := s.next + 1)
  {
    SetOne(s.cache["sp"], c, v);
  }

  lemma StoreStep(s: State, n: nat, c: Column, v: Value, was: Value, outcome: Outcome)
    requires "sp" in s.db && n in s.pending && s.pending[n] == Sending(c, v, was, Sent)
    ensures Step(s, Write(n, outcome)) ==
            s.(db := if outcome.NotStored? then s.db else s.db["sp" := With(s.db["sp"], c, v)],
               pending := s.pending[n := Sending(c, v, was, PhaseAfter(outcome))])
  {
    assert s.db["sp"].cells + map[c := v] == s.db["sp"].cells[c := v];
  }

  lemma RefusedStep(s: State, n: nat, c: Column, v: Value, was: Value)
    requires "sp" in s.cache && n in s.pending && s.pending[n] == Sending(c, v, was, Refused)
    ensures Step(s, Reply(n)) == s.(cache := s.cache["sp" := With(s.cache["sp"], c, was)], pending := s.pending - {n})
  {
    assert s.cache["sp"].cells + map[c := was] == s.cache["sp"].cells[c := was];
  }

  // ---- The race --------------------------------------------------------------------------------------

  // The column goes to `v` and then to `w`; `first` and `second` are how the two writes end.
  datatype Race = Race(row: Row, c: Column, v: Value, w: Value, first: Outcome, second: Outcome) {
    function Old(): Value { row.cells[c] }
  }

  predicate IsRace(r: Race) {
    Storable(r.c, r.v) && Storable(r.c, r.w) && r.v != r.Old() && r.w != r.v
  }

  // What follows the first dispatch.
  datatype Token = SecondEdit | WriteFirst | WriteSecond | ReplyFirst | ReplySecond

  // Each once, a write after its dispatch, a reply after its write, and the second dispatch before the
  // first edit's reply.
  predicate Enabled(s: seq<Token>, t: Token) {
    && t !in s
    && match t
       case SecondEdit => true
       case WriteFirst => true
       case WriteSecond => SecondEdit in s
       case ReplyFirst => WriteFirst in s && SecondEdit in s
       case ReplySecond => WriteSecond in s
  }

  predicate Schedule(s: seq<Token>) {
    s == [] || (Schedule(s[..|s| - 1]) && Enabled(s[..|s| - 1], s[|s| - 1]))
  }

  predicate Complete(s: seq<Token>) { ReplyFirst in s && ReplySecond in s }

  function EventOf(r: Race, t: Token): Event {
    match t
    case SecondEdit => Dispatch("sp", Set(r.c, r.w), true)
    case WriteFirst => Write(0, r.first)
    case WriteSecond => Write(1, r.second)
    case ReplyFirst => Reply(0)
    case ReplySecond => Reply(1)
  }

  function Events(r: Race, s: seq<Token>): seq<Event> {
    if s == [] then [Dispatch("sp", Set(r.c, r.v), true)]
    else Events(r, s[..|s| - 1]) + [EventOf(r, s[|s| - 1])]
  }

  // The column in the cache and in the database.
  function CacheValue(r: Race, s: seq<Token>): Value {
    if s == [] then r.v
    else
      var before := CacheValue(r, s[..|s| - 1]);
      match s[|s| - 1]
      case SecondEdit => r.w
      case ReplyFirst => if r.first.StoredAndReported? then before else r.Old()
      case ReplySecond => if r.second.StoredAndReported? then before else r.v
      case _ => before
  }

  function DbValue(r: Race, s: seq<Token>): Value {
    if s == [] then r.Old()
    else
      var before := DbValue(r, s[..|s| - 1]);
      match s[|s| - 1]
      case WriteFirst => if r.first.NotStored? then before else r.v
      case WriteSecond => if r.second.NotStored? then before else r.w
      case _ => before
  }

  function FirstRequest(r: Race, s: seq<Token>): Request {
    Sending(r.c, r.v, r.Old(), if WriteFirst in s then PhaseAfter(r.first) else Sent)
  }

  function SecondRequest(r: Race, s: seq<Token>): Request {
    Sending(r.c, r.w, r.v, if WriteSecond in s then PhaseAfter(r.second) else Sent)
  }

  function Pending(r: Race, s: seq<Token>): map<nat, Request> {
    (if ReplyFirst in s then map[] else map[0 := FirstRequest(r, s)])
    + (if SecondEdit in s && ReplySecond !in s then map[1 := SecondRequest(r, s)] else map[])
  }

  function At(r: Race, cached: Value, stored: Value, pending: map<nat, Request>, next: nat): State {
    State(map["sp" := With(r.row, r.c, cached)], map["sp" := With(r.row, r.c, stored)], pending, next, None)
  }

  function StateAt(r: Race, s: seq<Token>): State {
    At(r, CacheValue(r, s), DbValue(r, s), Pending(r, s), if SecondEdit in s then 2 else 1)
  }

  lemma {:induction false} BeforeSecond(r: Race, s: seq<Token>)
    requires Schedule(s)
    ensures SecondEdit !in s ==> CacheValue(r, s) == r.v && ReplyFirst !in s && ReplySecond !in s
    ensures ReplyFirst in s ==> WriteFirst in s
    ensures ReplySecond in s ==> WriteSecond in s
    ensures WriteSecond in s ==> SecondEdit in s
  {
    if s != [] {
      BeforeSecond(r, s[..|s| - 1]);
      assert s == s[..|s| - 1] + [s[|s| - 1]];
    }
  }

  // What one more token does to the pieces of the state.
  lemma OneToken(r: Race, s: seq<Token>, t: Token)
    requires Schedule(s) && Enabled(s, t)
    ensures forall x :: x in s + [t] <==> x in s || x == t
    ensures CacheValue(r, s + [t]) ==
            match t
            case SecondEdit => r.w
            case ReplyFirst => if r.first.StoredAndReported? then CacheValue(r, s) else r.Old()
            case ReplySecond => if r.second.StoredAndReported? then CacheValue(r, s) else r.v
            case _ => CacheValue(r, s)
    ensures DbValue(r, s + [t]) ==
            match t
            case WriteFirst => if r.first.NotStored? then DbValue(r, s) else r.v
            case WriteSecond => if r.second.NotStored? then DbValue(r, s) else r.w
            case _ => DbValue(r, s)
  {
    assert (s + [t])[..|s|] == s;
  }

  lemma PendingNext(r: Race, s: seq<Token>, t: Token)
    requires Schedule(s) && Enabled(s, t)
    ensures Pending(r, s + [t]) ==
            match t
            case SecondEdit => Pending(r, s)[1 := Sending(r.c, r.w, r.v, Sent)]
            case WriteFirst => Pending(r, s)[0 := Sending(r.c, r.v, r.Old(), PhaseAfter(r.first))]
            case WriteSecond => Pending(r, s)[1 := Sending(r.c, r.w, r.v, PhaseAfter(r.second))]
            case ReplyFirst => Pending(r, s) - {0}
            case ReplySecond => Pending(r, s) - {1}
  {
    BeforeSecond(r, s);
    OneToken(r, s, t);
  }

  lemma SetFrom(s: State, row: Row, c: Column, v: Value)
    requires s.cache == map["sp" := row] && row.cells[c] != v && Storable(c, v)
    ensures Step(s, Dispatch("sp", Set(c, v), true)) ==
            State(map["sp" := With(row, c, v)], s.db, s.pending[s.next := Sending(c, v, row.cells[c], Sent)], s.next + 1, s.snapshot)
  {
    SetStep(s, c, v);
    assert s.cache["sp" := With(row, c, v)] == map["sp" := With(row, c, v)];
  }

  lemma SecondAt(r: Race, stored: Value, pending: map<nat, Request>)
    requires IsRace(r)
    ensures Step(At(r, r.v, stored, pending, 1), EventOf(r, SecondEdit))
            == At(r, r.w, stored, pending[1 := Sending(r.c, r.w, r.v, Sent)], 2)
  {
    var row := With(r.row, r.c, r.v);
    assert row.cells[r.c] == r.v;
    WithTwice(r.row, r.c, r.v, r.w);
    SetFrom(At(r, r.v, stored, pending, 1), row, r.c, r.w);
  }

  lemma WriteAt(r: Race, cached: Value, stored: Value, pending: map<nat, Request>, next: nat, n: nat, v: Value, was: Value, outcome: Outcome)
    requires n in pending && pending[n] == Sending(r.c, v, was, Sent)
    ensures Step(At(r, cached, stored, pending, next), Write(n, outcome))
            == At(r, cached, if outcome.NotStored? then stored else v, pending[n := Sending(r.c, v, was, PhaseAfter(outcome))], next)
  {
    StoreStep(At(r, cached, stored, pending, next), n, r.c, v, was, outcome);
    WithTwice(r.row, r.c, stored, v);
  }

  lemma ReplyAt(r: Race, cached: Value, stored: Value, pending: map<nat, Request>, next: nat, n: nat, v: Value, was: Value, outcome: Outcome)
    requires n in pending && pending[n] == Sending(r.c, v, was, PhaseAfter(outcome))
    ensures Step(At(r, cached, stored, pending, next), Reply(n))
            == At(r, if outcome.StoredAndReported? then cached else was, stored, pending - {n}, next)
  {
    if !outcome.StoredAndReported? {
      RefusedStep(At(r, cached, stored, pending, next), n, r.c, v, was);
      WithTwice(r.row, r.c, cached, was);
    }
  }

  lemma TokenStep(r: Race, s: seq<Token>, t: Token)
    requires IsRace(r) && Schedule(s) && Enabled(s, t)
    ensures Step(StateAt(r, s), EventOf(r, t)) == StateAt(r, s + [t])
  {
    BeforeSecond(r, s);
    OneToken(r, s, t);
    PendingNext(r, s, t);
    var x, y, p, next := CacheValue(r, s), DbValue(r, s), Pending(r, s), if SecondEdit in s then 2 else 1;
    match t
    case SecondEdit => SecondAt(r, y, p);
    case WriteFirst => WriteAt(r, x, y, p, next, 0, r.v, r.Old(), r.first);
    case WriteSecond => WriteAt(r, x, y, p, next, 1, r.w, r.v, r.second);
    case ReplyFirst => ReplyAt(r, x, y, p, next, 0, r.v, r.Old(), r.first);
    case ReplySecond => ReplyAt(r, x, y, p, next, 1, r.w, r.v, r.second);
  }

  lemma RaceBegins(r: Race)
    requires IsRace(r)
    ensures Run(Start(r.row), Events(r, [])) == StateAt(r, [])
  {
    RunOne(Start(r.row), Events(r, [])[0]);
    SetFrom(Start(r.row), r.row, r.c, r.v);
    WithTwice(r.row, r.c, r.v, r.v);
    assert Pending(r, []) == map[0 := FirstRequest(r, [])];
  }

  lemma RaceGoesOn(r: Race, s: seq<Token>, t: Token)
    requires IsRace(r) && Schedule(s) && Enabled(s, t)
    requires Run(Start(r.row), Events(r, s)) == StateAt(r, s)
    ensures Run(Start(r.row), Events(r, s) + [EventOf(r, t)]) == StateAt(r, s + [t])
  {
    TokenStep(r, s, t);
    RunAppend(Start(r.row), Events(r, s), [EventOf(r, t)]);
    RunOne(StateAt(r, s), EventOf(r, t));
  }

  lemma {:induction false} RaceRuns(r: Race, s: seq<Token>)
    requires IsRace(r) && Schedule(s)
    ensures Run(Start(r.row), Events(r, s)) == StateAt(r, s)
  {
    if s == [] {
      RaceBegins(r);
    } else {
      RaceRuns(r, s[..|s| - 1]);
      RaceGoesOn(r, s[..|s| - 1], s[|s| - 1]);
      assert s == s[..|s| - 1] + [s[|s| - 1]];
    }
  }

  // ---- Who comes first -------------------------------------------------------------------------------

  ghost predicate Before(s: seq<Token>, a: Token, b: Token) {
    exists i, j :: 0 <= i < j < |s| && s[i] == a && s[j] == b
  }

  lemma BeforeSnoc(s: seq<Token>, t: Token, a: Token, b: Token)
    ensures Before(s + [t], a, b) <==> Before(s, a, b) || (t == b && a in s)
  {
    var longer := s + [t];
    if i, j :| 0 <= i < j < |s| && s[i] == a && s[j] == b {
      assert longer[i] == a && longer[j] == b;
    }
    if t == b && a in s {
      var i :| 0 <= i < |s| && s[i] == a;
      assert longer[i] == a && longer[|s|] == b;
    }
    if i, j :| 0 <= i < j < |longer| && longer[i] == a && longer[j] == b {
      assert s[i] == a;
      if j < |s| { assert s[j] == b; }
    }
  }

  // A refused edit restores what it replaced; what the replies leave is decided by the last refused one.
  function AfterReplies(r: Race, firstLast: bool): Value {
    var first, second := r.first.StoredAndReported?, r.second.StoredAndReported?;
    if first && second then r.w
    else if !first && (firstLast || second) then r.Old()
    else r.v
  }

  // What the writes leave is decided by the last stored one.
  function AfterWrites(r: Race, firstLast: bool): Value {
    if r.first.NotStored? && r.second.NotStored? then r.Old()
    else if r.second.NotStored? || (firstLast && !r.first.NotStored?) then r.v
    else r.w
  }

  ghost predicate RepliesExplained(r: Race, s: seq<Token>) {
    && CacheValue(r, s) == (
         if ReplyFirst in s && ReplySecond in s then AfterReplies(r, Before(s, ReplySecond, ReplyFirst))
         else if ReplyFirst in s then if r.first.StoredAndReported? then r.w else r.Old()
         else if ReplySecond in s then if r.second.StoredAndReported? then r.w else r.v
         else if SecondEdit in s then r.w else r.v)
    && (ReplySecond !in s ==> !Before(s, ReplySecond, ReplyFirst))
  }

  ghost predicate WritesExplained(r: Race, s: seq<Token>) {
    && DbValue(r, s) == (
         if WriteFirst in s && WriteSecond in s then AfterWrites(r, Before(s, WriteSecond, WriteFirst))
         else if WriteFirst in s then if r.first.NotStored? then r.Old() else r.v
         else if WriteSecond in s then if r.second.NotStored? then r.Old() else r.w
         else r.Old())
    && (WriteSecond !in s ==> !Before(s, WriteSecond, WriteFirst))
  }

  lemma {:induction false} ScheduleReplies(r: Race, s: seq<Token>)
    requires Schedule(s)
    ensures RepliesExplained(r, s)
  {
    if s != [] {
      var init, t := s[..|s| - 1], s[|s| - 1];
      ScheduleReplies(r, init);
      BeforeSecond(r, init);
      OneToken(r, init, t);
      assert s == init + [t];
      BeforeSnoc(init, t, ReplySecond, ReplyFirst);
    }
  }

  lemma {:induction false} ScheduleWrites(r: Race, s: seq<Token>)
    requires Schedule(s)
    ensures WritesExplained(r, s)
  {
    if s != [] {
      var init, t := s[..|s| - 1], s[|s| - 1];
      ScheduleWrites(r, init);
      OneToken(r, init, t);
      assert s == init + [t];
      BeforeSnoc(init, t, WriteSecond, WriteFirst);
    }
  }

  // ---- The result ------------------------------------------------------------------------------------

  // Whatever the outcomes and the order, nothing is in flight at the end, and the column holds what the
  // last refusal left in the cache and what the last stored write left in the database.
  lemma RaceEnds(r: Race, s: seq<Token>)
    requires IsRace(r) && Schedule(s) && Complete(s)
    ensures Run(Start(r.row), Events(r, s)) ==
            State(map["sp" := With(r.row, r.c, AfterReplies(r, Before(s, ReplySecond, ReplyFirst)))],
                  map["sp" := With(r.row, r.c, AfterWrites(r, Before(s, WriteSecond, WriteFirst)))], map[], 2, None)
  {
    RaceRuns(r, s);
    ScheduleReplies(r, s);
    ScheduleWrites(r, s);
    BeforeSecond(r, s);
    assert Pending(r, s) == map[];
  }

  // With writes that report what they did, cache and database end up different, for good, in exactly
  // three cases: the first edit refused and the second stored, unless it restored the old value; both
  // stored, in reverse order; both refused, with the replies in the order of the edits.
  lemma SameColumnDivergesExactly(r: Race, s: seq<Token>)
    requires IsRace(r) && Schedule(s) && Complete(s)
    requires !r.first.StoredUnreported? && !r.second.StoredUnreported?
    ensures var end := Run(Start(r.row), Events(r, s));
      && end.pending == map[]
      && (end.cache != end.db <==>
            || (r.first.NotStored? && r.second.StoredAndReported? && r.w != r.Old())
            || (r.first.StoredAndReported? && r.second.StoredAndReported? && Before(s, WriteSecond, WriteFirst))
            || (r.first.NotStored? && r.second.NotStored? && !Before(s, ReplySecond, ReplyFirst)))
  {
    RaceEnds(r, s);
    var x, y := AfterReplies(r, Before(s, ReplySecond, ReplyFirst)), AfterWrites(r, Before(s, WriteSecond, WriteFirst));
    assert With(r.row, r.c, x) == With(r.row, r.c, y) <==> x == y by {
      assert With(r.row, r.c, x).cells[r.c] == x && With(r.row, r.c, y).cells[r.c] == y;
    }
    assert (map["sp" := With(r.row, r.c, x)])["sp"] == With(r.row, r.c, x);
    assert (map["sp" := With(r.row, r.c, y)])["sp"] == With(r.row, r.c, y);
  }
}
