// src/app.rs: optimistic spark edits over whole runs. Patches reach the cache at once, the database
// later, and a failed write is rolled back by the inverse patch.
module SparkEdits {
  import opened Prelude
  import opened SparkPatch

  // ---- The state machine ---------------------------------------------------------------------------

  // Sent: the write is on its way; Landed and Refused: its reply is.
  datatype Phase = Sent | Landed | Refused

  datatype Request = Request(id: string, patch: Patch, prior: Patch, update: Update, phase: Phase)

  // `snapshot` is a list of sparks read from the database and not yet delivered.
  datatype State = State(
    cache: map<string, Row>,
    db: map<string, Row>,
    pending: map<nat, Request>,
    next: nat,
    snapshot: Option<map<string, Row>>)

  datatype Event =
    | Dispatch(id: string, patch: Patch, poolReady: bool)
    | Write(request: nat, outcome: Outcome)
    | Reply(request: nat)
    | Snapshot
    | Deliver

  function Step(s: State, e: Event): State {
    match e
    case Dispatch(id, patch, ready) =>
      if IsEmpty(patch) || id !in s.cache || IsEmpty(Prior(s.cache[id], patch)) then s
      else
        var row, prior := Applied(s.cache[id], patch), Prior(s.cache[id], patch);
        if !ready then s.(cache := s.cache[id := Applied(row, prior)])
        else
          s.(cache := s.cache[id := row],
             pending := s.pending[s.next := Request(id, patch, prior, ToUpdate(patch, row), Sent)],
             next := s.next + 1)
    case Write(n, outcome) =>
      if n !in s.pending || !s.pending[n].phase.Sent? then s
      else
        var r := s.pending[n];
        var written := r.id in s.db && !outcome.NotStored?;
        s.(db := if written then s.db[r.id := Stored(s.db[r.id], r.update)] else s.db,
           pending := s.pending[n := r.(phase := if written && outcome.StoredAndReported? then Landed else Refused)])
    case Reply(n) =>
      if n !in s.pending || s.pending[n].phase.Sent? then s
      else
        var r := s.pending[n];
        s.(cache := if r.phase.Refused? && r.id in s.cache then s.cache[r.id := Applied(s.cache[r.id], r.prior)] else s.cache,
           pending := s.pending - {n})
    case Snapshot => s.(snapshot := Some(s.db))
    case Deliver => if s.snapshot.None? then s else s.(cache := s.snapshot.value, snapshot := None)
  }

  function Run(s: State, events: seq<Event>): State
    decreases |events|
  {
    if events == [] then s else Run(Step(s, events[0]), events[1..])
  }

  // ---- What each step does -------------------------------------------------------------------------

  // An edit of a cached spark that changes something shows in the cache at once and is pending under a
  // fresh number, while the database and the other sparks stand; without a database it is undone at once.
  // Any other edit changes nothing.
  lemma DispatchEffects(s: State, id: string, p: Patch, ready: bool)
    ensures var t := Step(s, Dispatch(id, p, ready));
      && t.db == s.db && t.snapshot == s.snapshot
      && (IsEmpty(p) || id !in s.cache || IsEmpty(Prior(s.cache[id], p)) ==> t == s)
      && (!IsEmpty(p) && id in s.cache && !IsEmpty(Prior(s.cache[id], p)) ==>
            && t.cache.Keys == s.cache.Keys && (forall i :: i in s.cache && i != id ==> t.cache[i] == s.cache[i])
            && (ready ==>
                  && t.cache[id] == Applied(s.cache[id], p) && t.next == s.next + 1
                  && t.pending == s.pending[s.next := Request(id, p, Prior(s.cache[id], p), ToUpdate(p, t.cache[id]), Sent)])
            && (!ready ==>
                  && t.pending == s.pending && t.next == s.next
                  && t.cache[id] == Applied(Applied(s.cache[id], p), Prior(s.cache[id], p))))
  {
  }

  // A write that is stored reaches its own row only; the cache does not move before the reply.
  lemma WriteEffects(s: State, n: nat, outcome: Outcome)
    requires n in s.pending && s.pending[n].phase.Sent?
    ensures var t, r := Step(s, Write(n, outcome)), s.pending[n]; var stored := r.id in s.db && !outcome.NotStored?;
      && t.cache == s.cache && t.next == s.next && t.snapshot == s.snapshot
      && t.db == (if stored then s.db[r.id := Stored(s.db[r.id], r.update)] else s.db)
      && t.pending == s.pending[n := r.(phase := if stored && outcome.StoredAndReported? then Landed else Refused)]
  {
  }

  // A reply retires its edit, and re-applies the prior patch exactly if the write was refused.
  lemma ReplyEffects(s: State, n: nat)
    requires n in s.pending && !s.pending[n].phase.Sent?
    ensures var t, r := Step(s, Reply(n)), s.pending[n];
      && t.db == s.db && t.next == s.next && t.snapshot == s.snapshot && t.pending == s.pending - {n}
      && t.cache == if r.phase.Refused? && r.id in s.cache then s.cache[r.id := Applied(s.cache[r.id], r.prior)] else s.cache
  {
  }

  // ---- Stored fields -------------------------------------------------------------------------------

  // What an edit occupies: columns, and the metadata document as one field.
  datatype Slot = Cell(column: Column) | Document

  function Slots(p: Patch): set<Slot> {
    (set c | c in p.sets :: Cell(c)) + if p.problem.Some? then {Document} else {}
  }

  predicate Same(a: Row, b: Row, s: Slot) {
    match s
    case Cell(c) => a.cells[c] == b.cells[c]
    case Document => a.doc == b.doc
  }

  lemma SameEverywhere(a: Row, b: Row)
    requires forall s :: Same(a, b, s)
    ensures a == b
  {
    forall c: Column ensures a.cells[c] == b.cells[c] { assert Same(a, b, Cell(c)); }
    assert a.cells == b.cells;
    assert Same(a, b, Document);
  }

  ghost predicate Untouched(s: State, id: string, slot: Slot) {
    forall n :: n in s.pending && s.pending[n].id == id ==> slot !in Slots(s.pending[n].patch)
  }

  // Cache and database agree on every field that no edit in flight occupies.
  ghost predicate Agree(s: State) {
    && s.cache.Keys == s.db.Keys
    && forall id, slot :: id in s.cache && Untouched(s, id, slot) ==> Same(s.cache[id], s.db[id], slot)
  }

  // ---- Edits that keep agreement -------------------------------------------------------------------

  // Dispatch `p` changes the cache.
  ghost predicate Launches(s: State, id: string, p: Patch) {
    !IsEmpty(p) && id in s.cache && !IsEmpty(Prior(s.cache[id], p))
  }

  // An edit that is sent takes fields that no edit in flight occupies, and one that is undone at once is
  // undone; a write ends in a way that the edit's fields survive; and a reload is delivered only while the
  // database is as it was read and no write is on its way.
  ghost predicate Allowed(s: State, e: Event) {
    match e
    case Dispatch(id, patch, ready) =>
      Launches(s, id, patch) ==>
        if ready then forall slot :: slot in Slots(patch) ==> Untouched(s, id, slot)
        else EditAgrees(s.cache[id], patch, NotStored)
    case Write(n, outcome) =>
      n in s.pending && s.pending[n].phase.Sent? && s.pending[n].id in s.db ==>
        EditAgrees(s.db[s.pending[n].id], s.pending[n].patch, outcome)
    case Reply(_) => true
    case Snapshot => true
    case Deliver =>
      s.snapshot.Some? ==> s.snapshot.value == s.db && forall n :: n in s.pending ==> !s.pending[n].phase.Sent?
  }

  ghost predicate AllAllowed(s: State, events: seq<Event>)
    decreases |events|
  {
    events == [] || (Allowed(s, events[0]) && AllAllowed(Step(s, events[0]), events[1..]))
  }

  // ---- What holds of one edit in flight, on its own fields -----------------------------------------

  // Once the write has ended, the reply settles the edit's fields.
  ghost predicate InFlight(r: Request, cached: Row, stored: Row) {
    && Slots(r.prior) <= Slots(r.patch)
    && match r.phase
       case Sent => OnItsWay(r, cached, stored)
       case Landed => SameOn(Slots(r.patch), cached, stored)
       case Refused => SameOn(Slots(r.patch), Applied(cached, r.prior), stored)
  }

  ghost predicate SameOn(slots: set<Slot>, a: Row, b: Row) {
    forall slot :: slot in slots ==> Same(a, b, slot)
  }

  ghost predicate OnItsWay(r: Request, cached: Row, stored: Row) {
    && (forall c :: c in r.patch.sets ==>
          && cached.cells[c] == r.patch.sets[c]
          && (c in r.prior.sets <==> stored.cells[c] != r.patch.sets[c])
          && (c in r.prior.sets ==> r.prior.sets[c] == stored.cells[c]))
    && (r.patch.problem.Some? ==>
          && cached.doc == Edited(stored.doc, r.patch.problem.value)
          && r.prior.problem == if r.patch.problem.value == Shown(stored.doc) then None else Some(Shown(stored.doc)))
    && r.update == ToUpdate(r.patch, cached)
  }

  lemma SlotsOf(p: Patch)
    ensures forall c :: Cell(c) in Slots(p) <==> c in p.sets
    ensures Document in Slots(p) <==> p.problem.Some?
  {
  }

  lemma Begin(row: Row, stored: Row, id: string, p: Patch)
    requires SameOn(Slots(p), row, stored)
    ensures InFlight(Request(id, p, Prior(row, p), ToUpdate(p, Applied(row, p)), Sent), Applied(row, p), stored)
    ensures forall slot :: slot !in Slots(p) ==> Same(Applied(row, p), row, slot)
  {
    SlotsOf(p);
    SlotsOf(Prior(row, p));
    forall c | c in p.sets ensures row.cells[c] == stored.cells[c] {
      assert Same(row, stored, Cell(c));
    }
    if p.problem.Some? { assert Same(row, stored, Document); }
    forall slot | slot !in Slots(p) ensures Same(Applied(row, p), row, slot) {
    }
  }

  lemma Land(r: Request, cached: Row, stored: Row)
    requires InFlight(r, cached, stored) && r.phase.Sent? && EditAgrees(stored, r.patch, StoredAndReported)
    ensures SameOn(Slots(r.patch), cached, Stored(stored, r.update))
    ensures forall slot :: slot !in Slots(r.patch) ==> Same(Stored(stored, r.update), stored, slot)
  {
    SlotsOf(r.patch);
    forall slot | slot in Slots(r.patch) ensures Same(cached, Stored(stored, r.update), slot) {
    }
  }

  lemma Refuse(r: Request, cached: Row, stored: Row)
    requires InFlight(r, cached, stored) && r.phase.Sent? && EditAgrees(stored, r.patch, NotStored)
    ensures SameOn(Slots(r.patch), Applied(cached, r.prior), stored)
  {
    SlotsOf(r.patch);
    if r.patch.problem.Some? { UndoExactly(stored.doc, r.patch.problem.value); }
    forall slot | slot in Slots(r.patch) ensures Same(Applied(cached, r.prior), stored, slot) {
    }
  }

  lemma UnreportedCell(r: Request, cached: Row, stored: Row, c: Column)
    requires OnItsWay(r, cached, stored) && EditAgrees(stored, r.patch, StoredUnreported) && c in r.patch.sets
    ensures Applied(cached, r.prior).cells[c] == Stored(stored, r.update).cells[c]
  {
  }

  lemma UnreportedDocument(r: Request, cached: Row, stored: Row)
    requires OnItsWay(r, cached, stored) && EditAgrees(stored, r.patch, StoredUnreported) && r.patch.problem.Some?
    ensures Applied(cached, r.prior).doc == Stored(stored, r.update).doc
  {
    EditIsShown(stored.doc, r.patch.problem.value);
  }

  lemma LandUnreported(r: Request, cached: Row, stored: Row)
    requires InFlight(r, cached, stored) && r.phase.Sent? && EditAgrees(stored, r.patch, StoredUnreported)
    ensures SameOn(Slots(r.patch), Applied(cached, r.prior), Stored(stored, r.update))
    ensures forall slot :: slot !in Slots(r.patch) ==> Same(Stored(stored, r.update), stored, slot)
  {
    SlotsOf(r.patch);
    forall slot | slot in Slots(r.patch) ensures Same(Applied(cached, r.prior), Stored(stored, r.update), slot) {
      match slot
      case Cell(c) => UnreportedCell(r, cached, stored, c);
      case Document => UnreportedDocument(r, cached, stored);
    }
  }

  lemma RollBackFrame(r: Request, cached: Row)
    requires Slots(r.prior) <= Slots(r.patch)
    ensures forall slot :: slot !in Slots(r.patch) ==> Same(Applied(cached, r.prior), cached, slot)
  {
    SlotsOf(r.prior);
    forall slot | slot !in Slots(r.patch) ensures Same(Applied(cached, r.prior), cached, slot) {
      assert slot !in Slots(r.prior);
    }
  }

  // A row that a rollback has produced is rolled back to itself.
  lemma RollBackTwice(r: Request, cached: Row, stored: Row)
    requires Slots(r.prior) <= Slots(r.patch) && SameOn(Slots(r.patch), Applied(cached, r.prior), stored)
    ensures SameOn(Slots(r.patch), Applied(stored, r.prior), stored)
  {
    SlotsOf(r.prior);
    if r.prior.problem.Some? { EditTwice(cached.doc, r.prior.problem.value); }
    forall slot | slot in Slots(r.patch) ensures Same(Applied(stored, r.prior), stored, slot) {
      assert Same(Applied(cached, r.prior), stored, slot);
    }
  }

  // An edit in flight depends on its own fields only.
  lemma OwnFieldsOnly(r: Request, cached: Row, stored: Row, cached': Row, stored': Row)
    requires InFlight(r, cached, stored)
    requires SameOn(Slots(r.patch), cached, cached') && SameOn(Slots(r.patch), stored, stored')
    ensures InFlight(r, cached', stored')
  {
    SlotsOf(r.patch);
    SlotsOf(r.prior);
    forall c | c in r.patch.sets ensures cached.cells[c] == cached'.cells[c] && stored.cells[c] == stored'.cells[c] {
      assert Same(cached, cached', Cell(c)) && Same(stored, stored', Cell(c));
    }
    if r.patch.problem.Some? { assert Same(cached, cached', Document) && Same(stored, stored', Document); }
    match r.phase
    case Sent =>
      assert ToUpdate(r.patch, cached) == ToUpdate(r.patch, cached');
    case Landed =>
      forall slot | slot in Slots(r.patch) ensures Same(cached', stored', slot) {
        assert Same(cached, stored, slot);
      }
    case Refused =>
      forall slot | slot in Slots(r.patch) ensures Same(Applied(cached', r.prior), stored', slot) {
        assert Same(Applied(cached, r.prior), stored, slot);
      }
  }

  // ---- The invariant -------------------------------------------------------------------------------

  ghost predicate PendingOk(s: State) {
    forall n :: n in s.pending ==>
      && n < s.next
      && s.pending[n].id in s.cache && s.pending[n].id in s.db
      && InFlight(s.pending[n], s.cache[s.pending[n].id], s.db[s.pending[n].id])
  }

  ghost predicate Disjoint(s: State) {
    forall m, n :: m in s.pending && n in s.pending && m != n && s.pending[m].id == s.pending[n].id ==>
      Slots(s.pending[m].patch) !! Slots(s.pending[n].patch)
  }

  ghost predicate Inv(s: State) { Agree(s) && PendingOk(s) && Disjoint(s) }

  // Dispatching on free fields puts the edit in flight and leaves the other fields alone.
  lemma LaunchBegins(s: State, id: string, p: Patch)
    requires Inv(s) && Allowed(s, Dispatch(id, p, true)) && Launches(s, id, p)
    ensures var t := Step(s, Dispatch(id, p, true));
      && InFlight(t.pending[s.next], t.cache[id], t.db[id])
      && forall slot :: slot !in Slots(p) ==> Same(t.cache[id], s.cache[id], slot)
  {
    forall slot | slot in Slots(p) ensures Same(s.cache[id], s.db[id], slot) {
      assert Untouched(s, id, slot);
    }
    Begin(s.cache[id], s.db[id], id, p);
  }

  lemma LaunchKeepsPending(s: State, id: string, p: Patch)
    requires Inv(s) && Allowed(s, Dispatch(id, p, true)) && Launches(s, id, p)
    ensures PendingOk(Step(s, Dispatch(id, p, true)))
  {
    var t := Step(s, Dispatch(id, p, true));
    LaunchBegins(s, id, p);
    forall n | n in t.pending
      ensures n < t.next && t.pending[n].id in t.cache && t.pending[n].id in t.db
      ensures InFlight(t.pending[n], t.cache[t.pending[n].id], t.db[t.pending[n].id])
    {
      if n != s.next && s.pending[n].id == id {
        var q := s.pending[n];
        forall slot | slot in Slots(q.patch) ensures slot !in Slots(p) {
          assert slot in Slots(p) ==> Untouched(s, id, slot);
        }
        OwnFieldsOnly(q, s.cache[id], s.db[id], t.cache[id], t.db[id]);
      }
    }
  }

  lemma LaunchKeepsAgree(s: State, id: string, p: Patch)
    requires Inv(s) && Allowed(s, Dispatch(id, p, true)) && Launches(s, id, p)
    ensures Agree(Step(s, Dispatch(id, p, true)))
  {
    var t := Step(s, Dispatch(id, p, true));
    LaunchBegins(s, id, p);
    assert s.next !in s.pending;
    assert s.next in t.pending && t.pending[s.next].id == id && t.pending[s.next].patch == p;
    forall i, slot | i in t.cache && Untouched(t, i, slot) ensures Same(t.cache[i], t.db[i], slot) {
      assert forall n :: n in s.pending ==> n in t.pending && t.pending[n] == s.pending[n];
      assert Untouched(s, i, slot);
    }
  }

  lemma LaunchKeepsDisjoint(s: State, id: string, p: Patch)
    requires Inv(s) && Allowed(s, Dispatch(id, p, true)) && Launches(s, id, p)
    ensures Disjoint(Step(s, Dispatch(id, p, true)))
  {
    var t := Step(s, Dispatch(id, p, true));
    forall m, n | m in t.pending && n in t.pending && m != n && t.pending[m].id == t.pending[n].id
      ensures Slots(t.pending[m].patch) !! Slots(t.pending[n].patch)
    {
      if m == s.next || n == s.next {
        assert forall slot :: slot in Slots(p) ==> Untouched(s, id, slot);
      }
    }
  }

  lemma DispatchKeepsInv(s: State, id: string, p: Patch, ready: bool)
    requires Inv(s) && Allowed(s, Dispatch(id, p, ready))
    ensures Inv(Step(s, Dispatch(id, p, ready)))
  {
    if Launches(s, id, p) {
      if ready {
        LaunchKeepsPending(s, id, p);
        LaunchKeepsAgree(s, id, p);
        LaunchKeepsDisjoint(s, id, p);
      } else {
        RollbackExactly(s.cache[id], p);
        assert Step(s, Dispatch(id, p, ready)).cache == s.cache;
      }
    }
  }

  function PhaseAfter(outcome: Outcome): Phase {
    if outcome.StoredAndReported? then Landed else Refused
  }

  function RowAfter(stored: Row, u: Update, outcome: Outcome): Row {
    if outcome.NotStored? then stored else Stored(stored, u)
  }

  lemma WriteEnds(r: Request, cached: Row, stored: Row, outcome: Outcome)
    requires InFlight(r, cached, stored) && r.phase.Sent? && EditAgrees(stored, r.patch, outcome)
    ensures InFlight(r.(phase := PhaseAfter(outcome)), cached, RowAfter(stored, r.update, outcome))
    ensures forall slot :: slot !in Slots(r.patch) ==> Same(RowAfter(stored, r.update, outcome), stored, slot)
  {
    match outcome
    case StoredAndReported => Land(r, cached, stored);
    case NotStored => Refuse(r, cached, stored);
    case StoredUnreported => LandUnreported(r, cached, stored);
  }

  lemma WriteKeepsPending(s: State, n: nat, outcome: Outcome)
    requires Inv(s) && Allowed(s, Write(n, outcome)) && n in s.pending && s.pending[n].phase.Sent?
    ensures PendingOk(Step(s, Write(n, outcome)))
  {
    var t := Step(s, Write(n, outcome));
    var r := s.pending[n];
    WriteEnds(r, s.cache[r.id], s.db[r.id], outcome);
    assert t.db[r.id] == RowAfter(s.db[r.id], r.update, outcome);
    forall m | m in t.pending ensures InFlight(t.pending[m], t.cache[t.pending[m].id], t.db[t.pending[m].id]) {
      var q := s.pending[m];
      if m != n && q.id == r.id {
        assert Slots(q.patch) !! Slots(r.patch);
        OwnFieldsOnly(q, s.cache[r.id], s.db[r.id], t.cache[r.id], t.db[r.id]);
      }
    }
  }

  // A write changes only the phase of its request and the row it names.
  lemma WriteKeepsRequests(s: State, n: nat, outcome: Outcome)
    requires Inv(s) && n in s.pending && s.pending[n].phase.Sent?
    ensures var t := Step(s, Write(n, outcome));
      && t.pending.Keys == s.pending.Keys
      && forall m :: m in s.pending ==> t.pending[m].id == s.pending[m].id && t.pending[m].patch == s.pending[m].patch
  {
  }

  lemma WriteKeepsAgree(s: State, n: nat, outcome: Outcome)
    requires Inv(s) && Allowed(s, Write(n, outcome)) && n in s.pending && s.pending[n].phase.Sent?
    ensures Agree(Step(s, Write(n, outcome))) && Disjoint(Step(s, Write(n, outcome)))
  {
    var t := Step(s, Write(n, outcome));
    var r := s.pending[n];
    WriteKeepsRequests(s, n, outcome);
    WriteEnds(r, s.cache[r.id], s.db[r.id], outcome);
    assert t.db[r.id] == RowAfter(s.db[r.id], r.update, outcome);
    forall i, slot | i in t.cache && Untouched(t, i, slot) ensures Same(t.cache[i], t.db[i], slot) {
      assert Untouched(s, i, slot);
      assert i == r.id ==> slot !in Slots(r.patch);
    }
  }

  lemma ReplyKeepsPending(s: State, n: nat)
    requires Inv(s) && n in s.pending && !s.pending[n].phase.Sent?
    ensures PendingOk(Step(s, Reply(n)))
  {
    var t := Step(s, Reply(n));
    var r := s.pending[n];
    RollBackFrame(r, s.cache[r.id]);
    forall m | m in t.pending ensures InFlight(t.pending[m], t.cache[t.pending[m].id], t.db[t.pending[m].id]) {
      var q := s.pending[m];
      if q.id == r.id && r.phase.Refused? {
        assert Slots(q.patch) !! Slots(r.patch);
        OwnFieldsOnly(q, s.cache[r.id], s.db[r.id], t.cache[r.id], t.db[r.id]);
      }
    }
  }

  lemma ReplyKeepsAgree(s: State, n: nat)
    requires Inv(s) && n in s.pending && !s.pending[n].phase.Sent?
    ensures Agree(Step(s, Reply(n))) && Disjoint(Step(s, Reply(n)))
  {
    var t := Step(s, Reply(n));
    var r := s.pending[n];
    RollBackFrame(r, s.cache[r.id]);
    forall i, slot | i in t.cache && Untouched(t, i, slot) && !(i == r.id && slot in Slots(r.patch))
      ensures Same(t.cache[i], t.db[i], slot)
    {
      assert Untouched(s, i, slot) by {
        forall m | m in s.pending && s.pending[m].id == i ensures slot !in Slots(s.pending[m].patch) {
          if m != n { assert m in t.pending; }
        }
      }
    }
  }

  lemma DeliverKeepsInv(s: State)
    requires Inv(s) && Allowed(s, Deliver)
    ensures Inv(Step(s, Deliver))
  {
    var t := Step(s, Deliver);
    if s.snapshot.Some? {
      forall n | n in t.pending ensures InFlight(t.pending[n], t.cache[t.pending[n].id], t.db[t.pending[n].id]) {
        var r := s.pending[n];
        if r.phase.Refused? { RollBackTwice(r, s.cache[r.id], s.db[r.id]); }
      }
    }
  }

  // In any order of dispatches, writes, replies and reloads that are allowed, cache and database agree on
  // every field without an edit in flight, and are equal when none is.
  lemma {:induction false} RunKeepsAgreement(s: State, events: seq<Event>)
    requires Inv(s) && AllAllowed(s, events)
    ensures var t := Run(s, events);
      Inv(t) && Agree(t) && (t.pending == map[] ==> t.cache == t.db)
    decreases |events|
  {
    if events == [] {
      if s.pending == map[] { QuiescentIsEqual(s); }
    } else {
      var e := events[0];
      if e.Dispatch? {
        DispatchKeepsInv(s, e.id, e.patch, e.poolReady);
      } else if e.Write? && e.request in s.pending && s.pending[e.request].phase.Sent? {
        WriteKeepsPending(s, e.request, e.outcome);
        WriteKeepsAgree(s, e.request, e.outcome);
      } else if e.Reply? && e.request in s.pending && !s.pending[e.request].phase.Sent? {
        ReplyKeepsPending(s, e.request);
        ReplyKeepsAgree(s, e.request);
      } else if e.Deliver? {
        DeliverKeepsInv(s);
      } else {
        assert Inv(Step(s, e));
      }
      RunKeepsAgreement(Step(s, e), events[1..]);
    }
  }

  lemma QuiescentIsEqual(s: State)
    requires Agree(s) && s.pending == map[]
    ensures s.cache == s.db
  {
    forall id | id in s.cache ensures s.cache[id] == s.db[id] {
      forall slot ensures Same(s.cache[id], s.db[id], slot) { assert Untouched(s, id, slot); }
      SameEverywhere(s.cache[id], s.db[id]);
    }
  }

  // ---- One edit from start to end --------------------------------------------------------------------

  // From agreement on its row, an edit that changes something and its write and reply leave the cache with
  // the patched row if the write is reported stored and the rolled-back one if not, and the database with
  // the stored row or the old one. The two are equal if and only if `EditAgrees` holds beforehand.
  lemma OneEditEnds(s: State, id: string, p: Patch, outcome: Outcome)
    requires id in s.cache && id in s.db && s.cache[id] == s.db[id]
    requires !IsEmpty(p) && !IsEmpty(Prior(s.cache[id], p))
    ensures var t := Run(s, [Dispatch(id, p, true), Write(s.next, outcome), Reply(s.next)]);
      && id in t.cache && id in t.db && s.next !in t.pending
      && t.cache[id] == (if outcome.StoredAndReported? then Applied(s.cache[id], p)
                         else Applied(Applied(s.cache[id], p), Prior(s.cache[id], p)))
      && t.db[id] == (if outcome.NotStored? then s.db[id] else Stored(s.db[id], ToUpdate(p, Applied(s.cache[id], p))))
      && (t.cache[id] == t.db[id] <==> EditAgrees(s.db[id], p, outcome))
  {
    var d, w, r := Dispatch(id, p, true), Write(s.next, outcome), Reply(s.next);
    assert [d, w, r][1..] == [w, r] && [w, r][1..] == [r];
    DispatchEffects(s, id, p, true);
    WriteEffects(Step(s, d), s.next, outcome);
    ReplyEffects(Step(Step(s, d), w), s.next);
    RunOne(Step(Step(s, d), w), r);
    assert Run(s, [d, w, r]) == Run(Step(s, d), [w, r]) == Run(Step(Step(s, d), w), [r]);
    EditAgreesExactly(s.db[id], p, outcome);
  }

  // ---- Reloads -------------------------------------------------------------------------------------

  lemma {:induction false} RunAppend(s: State, a: seq<Event>, b: seq<Event>)
    ensures Run(s, a + b) == Run(Run(s, a), b)
    decreases |a|
  {
    if a == [] {
      assert a + b == b;
    } else {
      assert (a + b)[1..] == a[1..] + b;
      RunAppend(Step(s, a[0]), a[1..], b);
    }
  }

  lemma RunOne(s: State, e: Event)
    ensures Run(s, [e]) == Step(s, e)
  {
    assert [e][1..] == [];
  }

  lemma {:induction false} IdleRun(s: State, events: seq<Event>)
    requires s.pending == map[] && forall e :: e in events ==> e.Write? || e.Reply?
    ensures Run(s, events) == s
    decreases |events|
  {
    if events != [] {
      assert events[0] in events;
      IdleRun(s, events[1..]);
    }
  }

  // From any state with nothing in flight, agreeing or not, a reload read and delivered before the next
  // edit makes cache and database equal, and the agreement then lasts through every allowed run.
  lemma ReloadRestores(s: State, between: seq<Event>, later: seq<Event>)
    requires s.pending == map[]
    requires forall e :: e in between ==> e.Write? || e.Reply?
    ensures var t := Run(s, [Snapshot] + between + [Deliver]);
      && t.cache == t.db
      && (AllAllowed(t, later) ==>
            var u := Run(s, [Snapshot] + between + [Deliver] + later);
            Agree(u) && (u.pending == map[] ==> u.cache == u.db))
  {
    var read := Step(s, Snapshot);
    RunOne(s, Snapshot);
    RunAppend(s, [Snapshot], between);
    IdleRun(read, between);
    RunAppend(s, [Snapshot] + between, [Deliver]);
    RunOne(read, Deliver);
    var t := Run(s, [Snapshot] + between + [Deliver]);
    if AllAllowed(t, later) {
      assert Inv(t);
      RunKeepsAgreement(t, later);
      RunAppend(s, [Snapshot] + between + [Deliver], later);
    }
  }

  datatype SlotValue = CellValue(value: Value) | DocValue(doc: Doc)

  function Get(row: Row, slot: Slot): SlotValue {
    match slot
    case Cell(c) => CellValue(row.cells[c])
    case Document => DocValue(row.doc)
  }

  function Written(u: Update, slot: Slot): Option<SlotValue> {
    match slot
    case Cell(c) => if c in u.sets then Some(CellValue(u.sets[c])) else None
    case Document => if u.metadata.Some? then Some(DocValue(u.metadata.value)) else None
  }

  // What a step writes to a field of a stored row.
  function Landing(s: State, e: Event, id: string, slot: Slot): Option<SlotValue> {
    if e.Write? && e.request in s.pending && s.pending[e.request].phase.Sent? && s.pending[e.request].id == id
       && id in s.db && !e.outcome.NotStored?
    then Written(s.pending[e.request].update, slot) else None
  }

  function LastLanding(s: State, events: seq<Event>, id: string, slot: Slot): Option<SlotValue>
    decreases |events|
  {
    if events == [] then None
    else
      var rest := LastLanding(Step(s, events[0]), events[1..], id, slot);
      if rest.Some? then rest else Landing(s, events[0], id, slot)
  }

  function Or(x: Option<SlotValue>, y: SlotValue): SlotValue {
    if x.Some? then x.value else y
  }

  lemma {:induction false} StoredIsLastLanding(s: State, events: seq<Event>, id: string, slot: Slot)
    requires id in s.db
    ensures id in Run(s, events).db
    ensures Get(Run(s, events).db[id], slot) == Or(LastLanding(s, events, id, slot), Get(s.db[id], slot))
    decreases |events|
  {
    if events != [] {
      var t := Step(s, events[0]);
      assert id in t.db && Get(t.db[id], slot) == Or(Landing(s, events[0], id, slot), Get(s.db[id], slot));
      StoredIsLastLanding(t, events[1..], id, slot);
    }
  }

  lemma {:induction false} SnapshotWaits(s: State, events: seq<Event>)
    requires forall e :: e in events ==> !e.Snapshot? && !e.Deliver?
    ensures Run(s, events).snapshot == s.snapshot
    decreases |events|
  {
    if events != [] {
      assert events[0] in events;
      SnapshotWaits(Step(s, events[0]), events[1..]);
    }
  }

  // From any state and whatever happens between the read of a reload and its delivery: afterwards a field
  // agrees exactly when no write landed on it in between, or the last one that did left the value read.
  lemma ReloadAgreesExactly(s: State, between: seq<Event>, id: string, slot: Slot)
    requires forall e :: e in between ==> !e.Snapshot? && !e.Deliver?
    requires id in s.db
    ensures var t := Run(s, [Snapshot] + between + [Deliver]);
      var landed := LastLanding(Step(s, Snapshot), between, id, slot);
      && id in t.cache && id in t.db
      && (Same(t.cache[id], t.db[id], slot) <==> landed.None? || landed.value == Get(s.db[id], slot))
  {
    var read := Step(s, Snapshot);
    RunOne(s, Snapshot);
    RunAppend(s, [Snapshot], between);
    var late := Run(read, between);
    RunAppend(s, [Snapshot] + between, [Deliver]);
    RunOne(late, Deliver);
    SnapshotWaits(read, between);
    StoredIsLastLanding(read, between, id, slot);
  }
}
