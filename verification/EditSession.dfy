// src/screen/spark_detail.rs, src/app.rs: the drafts of an inline edit and the slots of its writes in
// flight, and the handlers that dispatch a spark update and take its reply.
module EditSession {
  import opened Prelude
  import opened SparkPatch
  import SparkEdits

  datatype Field = Of(column: Column) | ProblemStatement

  datatype Edit = Edit(sparkId: string, drafts: map<Field, string>, inFlight: map<Field, string>)

  const REPORTED: seq<Column> := [Title, Description, Priority, Type, Assignee]

  function ReportedIn(sets: map<Column, Value>, columns: seq<Column>): seq<Field> {
    if columns == [] then []
    else (if columns[0] in sets then [Of(columns[0])] else []) + ReportedIn(sets, columns[1..])
  }

  // `affected_fields`, in its order. Status, owner, risk and scope have no slot.
  function Affected(p: Patch): seq<Field> {
    ReportedIn(p.sets, REPORTED) + if p.problem.Some? then [ProblemStatement] else []
  }

  lemma {:induction false} ReportedExactly(sets: map<Column, Value>, columns: seq<Column>)
    ensures forall f :: f in ReportedIn(sets, columns) <==> f.Of? && f.column in columns && f.column in sets
  {
    if columns != [] { ReportedExactly(sets, columns[1..]); }
  }

  lemma AffectedExactly(p: Patch)
    ensures forall f :: f in Affected(p) <==>
      if f.ProblemStatement? then p.problem.Some? else f.column in REPORTED && f.column in p.sets
  {
    ReportedExactly(p.sets, REPORTED);
  }

  predicate Dirty(e: Edit) { e.drafts != map[] || e.inFlight != map[] }

  // ---- The replies ---------------------------------------------------------------------------------

  function SetOf(fields: seq<Field>): set<Field> { set f | f in fields }

  function Cleared(e: Edit, fields: set<Field>): Edit {
    e.(inFlight := e.inFlight - fields)
  }

  function OnApplied(e: Option<Edit>, id: string, fields: set<Field>): Option<Edit> {
    if e.None? || e.value.sparkId != id then e
    else if Dirty(Cleared(e.value, fields)) then Some(Cleared(e.value, fields)) else None
  }

  function MovedBack(e: Edit, fields: set<Field>): Edit {
    Edit(e.sparkId,
         e.drafts + (map f | f in e.inFlight && f in fields :: e.inFlight[f]),
         e.inFlight - fields)
  }

  function OnFailed(e: Option<Edit>, id: string, fields: set<Field>): Option<Edit> {
    if e.None? || e.value.sparkId != id then e else Some(MovedBack(e.value, fields))
  }

  // ---- Runs of one session -------------------------------------------------------------------------

  datatype Request = Request(id: string, fields: map<Field, string>)

  datatype State = State(edit: Option<Edit>, pending: map<nat, Request>, next: nat)

  // A commit is launched when its spark is cached, its value is new and the database is open.
  datatype Event =
    | Begin(id: string)
    | Draft(field: Field, text: string)
    | Commit(field: Field, launched: bool)
    | Succeed(request: nat)
    | Fail(request: nat)
    | Leave

  function Committed(e: Edit, f: Field): Edit
    requires f in e.drafts
  {
    Edit(e.sparkId, e.drafts - {f}, e.inFlight[f := e.drafts[f]])
  }

  function Step(s: State, e: Event): State {
    match e
    case Begin(id) => if s.edit.Some? then s else s.(edit := Some(Edit(id, map[], map[])))
    case Draft(f, text) =>
      if s.edit.None? then s else s.(edit := Some(s.edit.value.(drafts := s.edit.value.drafts[f := text])))
    case Commit(f, launched) =>
      if s.edit.None? || f !in s.edit.value.drafts then s
      else
        var t := s.(edit := Some(Committed(s.edit.value, f)));
        if !launched then t
        else t.(pending := s.pending[s.next := Request(s.edit.value.sparkId, map[f := s.edit.value.drafts[f]])], next := s.next + 1)
    case Succeed(n) =>
      if n !in s.pending then s
      else s.(edit := OnApplied(s.edit, s.pending[n].id, s.pending[n].fields.Keys), pending := s.pending - {n})
    case Fail(n) =>
      if n !in s.pending then s
      else s.(edit := OnFailed(s.edit, s.pending[n].id, s.pending[n].fields.Keys), pending := s.pending - {n})
    case Leave => s.(edit := None)
  }

  function Run(s: State, events: seq<Event>): State
    decreases |events|
  {
    if events == [] then s else Run(Step(s, events[0]), events[1..])
  }

  // ---- What each step does -------------------------------------------------------------------------

  predicate Concerns(s: State, n: nat) {
    n in s.pending && s.edit.Some? && s.edit.value.sparkId == s.pending[n].id
  }

  // A failed write of the session's spark turns every slot of a field it carries into a draft with the
  // slot's text, over anything typed since; every other slot and draft stands, and a session of another
  // spark is left alone.
  lemma FailureGivesTextBack(s: State, n: nat)
    requires n in s.pending
    ensures var t := Step(s, Fail(n));
      && t.pending == s.pending - {n} && t.next == s.next
      && (!Concerns(s, n) ==> t.edit == s.edit)
      && (Concerns(s, n) ==>
            var e, e', fields := s.edit.value, t.edit.value, s.pending[n].fields;
            && t.edit.Some? && e'.sparkId == e.sparkId
            && (forall f :: f in e'.inFlight <==> f in e.inFlight && f !in fields)
            && (forall f :: f in e'.inFlight ==> e'.inFlight[f] == e.inFlight[f])
            && (forall f :: f in e'.drafts <==> f in e.drafts || (f in e.inFlight && f in fields))
            && (forall f :: f in e'.drafts ==> e'.drafts[f] == if f in e.inFlight && f in fields then e.inFlight[f] else e.drafts[f]))
  {
  }

  // A successful one removes its slots only, and the session ends exactly when nothing is left of it.
  lemma SuccessClearsSlots(s: State, n: nat)
    requires n in s.pending
    ensures var t := Step(s, Succeed(n));
      && t.pending == s.pending - {n} && t.next == s.next
      && (!Concerns(s, n) ==> t.edit == s.edit)
      && (Concerns(s, n) ==>
            var e, fields := s.edit.value, s.pending[n].fields;
            && (t.edit.None? <==> e.drafts == map[] && forall f :: f in e.inFlight ==> f in fields)
            && (t.edit.Some? ==>
                  && t.edit.value.sparkId == e.sparkId && t.edit.value.drafts == e.drafts
                  && (forall f :: f in t.edit.value.inFlight <==> f in e.inFlight && f !in fields)
                  && (forall f :: f in t.edit.value.inFlight ==> t.edit.value.inFlight[f] == e.inFlight[f])))
  {
    if Concerns(s, n) {
      var rest := s.edit.value.inFlight - s.pending[n].fields.Keys;
      assert rest == map[] <==> forall f :: f in s.edit.value.inFlight ==> f in s.pending[n].fields by {
        if rest == map[] {
          forall f | f in s.edit.value.inFlight ensures f in s.pending[n].fields { assert f !in rest; }
        }
      }
    }
  }

  // A commit moves the draft into its slot and, when launched, has a write of that text pending.
  lemma CommitMoves(s: State, f: Field, launched: bool)
    ensures var t := Step(s, Commit(f, launched));
      && (s.edit.None? || f !in s.edit.value.drafts ==> t == s)
      && (s.edit.Some? && f in s.edit.value.drafts ==>
            var e := s.edit.value;
            && t.edit == Some(Edit(e.sparkId, e.drafts - {f}, e.inFlight[f := e.drafts[f]]))
            && t.pending == (if launched then s.pending[s.next := Request(e.sparkId, map[f := e.drafts[f]])] else s.pending)
            && t.next == s.next + if launched then 1 else 0)
  {
  }

  // Typing replaces one draft; a session begins only where there is none, empty; leaving ends it.
  lemma TypingBeginningLeaving(s: State, f: Field, text: string, id: string)
    ensures Step(s, Draft(f, text)) ==
            if s.edit.None? then s
            else s.(edit := Some(Edit(s.edit.value.sparkId, s.edit.value.drafts[f := text], s.edit.value.inFlight)))
    ensures Step(s, Begin(id)) == if s.edit.Some? then s else s.(edit := Some(Edit(id, map[], map[])))
    ensures Step(s, Leave) == s.(edit := None)
  {
  }

  // Request `n` is the write behind slot `f`.
  ghost predicate Backs(s: State, n: nat, f: Field)
    requires s.edit.Some? && f in s.edit.value.inFlight
  {
    && n in s.pending && s.pending[n].id == s.edit.value.sparkId
    && f in s.pending[n].fields && s.pending[n].fields[f] == s.edit.value.inFlight[f]
  }

  ghost predicate SlotsBacked(s: State) {
    s.edit.Some? ==> forall f :: f in s.edit.value.inFlight ==> exists n :: Backs(s, n, f)
  }

  ghost predicate OneWritePerField(s: State) {
    forall m, n :: m in s.pending && n in s.pending && m != n && s.pending[m].id == s.pending[n].id ==>
      s.pending[m].fields.Keys !! s.pending[n].fields.Keys
  }

  ghost predicate Inv(s: State) {
    SlotsBacked(s) && OneWritePerField(s) && forall n :: n in s.pending ==> n < s.next
  }

  ghost predicate Free(s: State, f: Field) {
    s.edit.Some? ==> forall n :: n in s.pending && s.pending[n].id == s.edit.value.sparkId ==> f !in s.pending[n].fields
  }

  // Commits are launched, and only of fields without a write in flight for that spark.
  ghost predicate AllLaunched(s: State, events: seq<Event>)
    decreases |events|
  {
    events == [] ||
    ((events[0].Commit? ==> events[0].launched && Free(s, events[0].field)) && AllLaunched(Step(s, events[0]), events[1..]))
  }

  lemma CommitKeepsInv(s: State, f: Field)
    requires Inv(s) && Free(s, f)
    ensures Inv(Step(s, Commit(f, true)))
  {
    var t := Step(s, Commit(f, true));
    if s.edit.Some? && f in s.edit.value.drafts {
      assert s.next !in s.pending;
      assert Backs(t, s.next, f);
      forall g | g in t.edit.value.inFlight ensures exists n :: Backs(t, n, g) {
        if g != f {
          var n :| Backs(s, n, g);
          assert Backs(t, n, g);
        }
      }
    }
  }

  lemma DraftKeepsInv(s: State, f: Field, text: string)
    requires Inv(s)
    ensures Inv(Step(s, Draft(f, text)))
  {
    var t := Step(s, Draft(f, text));
    if s.edit.Some? {
      forall g | g in t.edit.value.inFlight ensures exists n :: Backs(t, n, g) {
        var n :| Backs(s, n, g);
        assert Backs(t, n, g);
      }
    }
  }

  lemma ReplyKeepsInv(s: State, n: nat, ok: bool)
    requires Inv(s) && n in s.pending
    ensures Inv(Step(s, if ok then Succeed(n) else Fail(n)))
  {
    var t := Step(s, if ok then Succeed(n) else Fail(n));
    if t.edit.Some? {
      forall g | g in t.edit.value.inFlight ensures exists m :: Backs(t, m, g) {
        assert g in s.edit.value.inFlight && t.edit.value.inFlight[g] == s.edit.value.inFlight[g];
        var m :| Backs(s, m, g);
        assert Backs(t, m, g);
      }
    }
  }

  lemma NoWriteNoSlot(s: State)
    requires SlotsBacked(s)
    ensures s.edit.Some? ==> s.pending != map[] || s.edit.value.inFlight == map[]
  {
    if s.edit.Some? && s.edit.value.inFlight != map[] {
      var f :| f in s.edit.value.inFlight;
      var n :| Backs(s, n, f);
    }
  }

  // Under these commits every slot in flight has its write pending, with the same text; so when no
  // write is pending no slot is left, and the session is dirty only through its drafts.
  lemma {:induction false} RunBacksSlots(s: State, events: seq<Event>)
    requires Inv(s) && AllLaunched(s, events)
    ensures var t := Run(s, events);
      && Inv(t)
      && (t.pending == map[] && t.edit.Some? ==> t.edit.value.inFlight == map[])
    decreases |events|
  {
    if events == [] {
      NoWriteNoSlot(s);
    } else {
      match events[0] {
        case Commit(f, _) => CommitKeepsInv(s, f);
        case Draft(f, text) => DraftKeepsInv(s, f, text);
        case Succeed(n) => if n in s.pending { ReplyKeepsInv(s, n, true); }
        case Fail(n) => if n in s.pending { ReplyKeepsInv(s, n, false); }
        case _ =>
      }
      RunBacksSlots(Step(s, events[0]), events[1..]);
    }
  }

  ghost predicate Stranded(s: State, f: Field) {
    s.edit.Some? && f in s.edit.value.inFlight && Free(s, f)
  }

  // A commit strands its slot exactly when it was not launched and no other write of the field is pending;
  lemma CommitStrandsExactly(s: State, f: Field, launched: bool)
    requires s.edit.Some? && f in s.edit.value.drafts && forall n :: n in s.pending ==> n < s.next
    ensures Stranded(Step(s, Commit(f, launched)), f) <==> !launched && Free(s, f)
  {
    var t := Step(s, Commit(f, launched));
    if launched {
      assert s.next in t.pending && f in t.pending[s.next].fields;
    }
  }

  lemma StrandedStep(s: State, e: Event, f: Field)
    requires Stranded(s, f) && !e.Leave? && !(e.Commit? && e.field == f)
    ensures Stranded(Step(s, e), f)
  {
    var t := Step(s, e);
    if (e.Succeed? || e.Fail?) && e.request in s.pending && s.pending[e.request].id == s.edit.value.sparkId {
      assert f in s.edit.value.inFlight - s.pending[e.request].fields.Keys;
    }
    assert f in t.edit.value.inFlight;
    forall n | n in t.pending && t.pending[n].id == t.edit.value.sparkId ensures f !in t.pending[n].fields {
    }
  }

  // and a stranded slot stays until the field is committed again or the spark is left, so the session
  // stays dirty whatever replies arrive.
  lemma {:induction false} StrandedStays(s: State, events: seq<Event>, f: Field)
    requires Stranded(s, f)
    requires forall e :: e in events ==> !e.Leave? && !(e.Commit? && e.field == f)
    ensures Stranded(Run(s, events), f) && Dirty(Run(s, events).edit.value)
    decreases |events|
  {
    if events != [] {
      assert events[0] in events;
      var t := Step(s, events[0]);
      StrandedStep(s, events[0], f);
      StrandedStays(t, events[1..], f);
    }
  }

  // ---- The handlers --------------------------------------------------------------------------------

  method ApplyColumns(row: Row, patch: Patch) returns (cells: Cells, sets: map<Column, Value>)
    ensures cells == Applied(row, patch).cells && sets == Prior(row, patch).sets
  {
    cells, sets := row.cells, map[];
    ghost var done: set<Column> := {};
    for i := 0 to |COLUMNS|
      invariant done == SetOfColumns(COLUMNS[..i])
      invariant Halfway(row, patch, done, cells, sets)
    {
      var c := COLUMNS[i];
      NextColumn(i);
      if c in patch.sets && patch.sets[c] != cells[c] {
        HalfwayWritten(row, patch, done, cells, sets, c);
        sets := sets[c := cells[c]];
        cells := cells[c := patch.sets[c]];
      } else {
        HalfwaySkipped(row, patch, done, cells, sets, c);
      }
      done := done + {c};
    }
    AllColumns();
    AllTheWay(row, patch, done, cells, sets);
  }

  ghost predicate Halfway(row: Row, p: Patch, done: set<Column>, cells: Cells, sets: map<Column, Value>) {
    && (forall c: Column :: cells[c] == if c in done && c in p.sets then p.sets[c] else row.cells[c])
    && (forall c: Column :: c in sets <==> c in done && c in p.sets && row.cells[c] != p.sets[c])
    && (forall c: Column :: c in sets ==> sets[c] == row.cells[c])
  }

  lemma HalfwayWritten(row: Row, p: Patch, done: set<Column>, cells: Cells, sets: map<Column, Value>, c: Column)
    requires Halfway(row, p, done, cells, sets) && c !in done && c in p.sets && p.sets[c] != cells[c]
    ensures Halfway(row, p, done + {c}, cells[c := p.sets[c]], sets[c := cells[c]])
  {
  }

  lemma HalfwaySkipped(row: Row, p: Patch, done: set<Column>, cells: Cells, sets: map<Column, Value>, c: Column)
    requires Halfway(row, p, done, cells, sets) && c !in done && !(c in p.sets && p.sets[c] != cells[c])
    ensures Halfway(row, p, done + {c}, cells, sets)
  {
  }

  lemma AllTheWay(row: Row, p: Patch, done: set<Column>, cells: Cells, sets: map<Column, Value>)
    requires Halfway(row, p, done, cells, sets) && forall c: Column :: c in done
    ensures cells == Applied(row, p).cells && sets == Prior(row, p).sets
  {
  }

  ghost function SetOfColumns(s: seq<Column>): set<Column> { set c | c in s }

  lemma NextColumn(i: nat)
    requires i < |COLUMNS|
    ensures COLUMNS[i] !in SetOfColumns(COLUMNS[..i])
    ensures SetOfColumns(COLUMNS[..i + 1]) == SetOfColumns(COLUMNS[..i]) + {COLUMNS[i]}
  {
    assert forall j :: 0 <= j < i ==> COLUMNS[j] != COLUMNS[i];
    assert COLUMNS[..i + 1] == COLUMNS[..i] + [COLUMNS[i]];
  }

  class Workshop {
    var sparks: map<string, Row>
    var edit: Option<Edit>

    // `apply_spark_patch`: column by column, then the problem statement.
    method ApplySparkPatch(id: string, patch: Patch) returns (prior: Option<Patch>)
      modifies this`sparks
      ensures id !in old(sparks) ==> prior == None && sparks == old(sparks)
      ensures id in old(sparks) ==>
        && prior == Some(Prior(old(sparks)[id], patch))
        && sparks == old(sparks)[id := Applied(old(sparks)[id], patch)]
    {
      if id !in sparks {
        return None;
      }
      var row := sparks[id];
      var cells, sets := ApplyColumns(row, patch);
      var doc, problem := row.doc, None;
      if patch.problem.Some? && patch.problem.value != Shown(doc) {
        problem := Some(Shown(doc));
        doc := Merge(doc, patch.problem.value);
      }
      sparks := sparks[id := Row(cells, doc)];
      prior := Some(Patch(sets, problem));
    }

    // Returns the request that is sent, if one is; its number and phase belong to the run.
    method SparkUpdateDispatch(id: string, patch: Patch, poolReady: bool) returns (sent: Option<SparkEdits.Request>)
      modifies this`sparks
      ensures var before := SparkEdits.State(old(sparks), map[], map[], 0, None);
        var after := SparkEdits.Step(before, SparkEdits.Dispatch(id, patch, poolReady));
        && sparks == after.cache
        && (sent.None? <==> after.pending == map[])
        && (sent.Some? ==> after.pending == map[0 := sent.value])
    {
      if IsEmpty(patch) {
        return None;
      }
      var prior := ApplySparkPatch(id, patch);
      if prior.None? {
        return None;
      }
      if IsEmpty(prior.value) {
        NoPriorNoChange(old(sparks)[id], patch);
        assert sparks == old(sparks);
        return None;
      }
      if !poolReady {
        var _ := ApplySparkPatch(id, prior.value);
        assert sparks == old(sparks)[id := Applied(Applied(old(sparks)[id], patch), prior.value)];
        return None;
      }
      sent := Some(SparkEdits.Request(id, patch, prior.value, ToUpdate(patch, sparks[id]), SparkEdits.Sent));
      ghost var before := SparkEdits.State(old(sparks), map[], map[], 0, None);
      ghost var after := SparkEdits.Step(before, SparkEdits.Dispatch(id, patch, poolReady));
      assert after.pending == map[0 := sent.value] && 0 in after.pending;
    }

    method SparkUpdateApplied(id: string, fields: seq<Field>)
      modifies this`edit
      ensures edit == OnApplied(old(edit), id, SetOf(fields))
    {
      if edit.Some? && edit.value.sparkId == id {
        var e := edit.value;
        for i := 0 to |fields|
          invariant e == Cleared(old(edit).value, SetOf(fields[..i]))
        {
          assert fields[..i + 1] == fields[..i] + [fields[i]];
          assert SetOf(fields[..i + 1]) == SetOf(fields[..i]) + {fields[i]};
          e := e.(inFlight := e.inFlight - {fields[i]});
        }
        assert fields[..|fields|] == fields;
        edit := if Dirty(e) then Some(e) else None;
      }
    }

    method SparkUpdateFailed(id: string, prior: Patch, fields: seq<Field>)
      modifies this`sparks, this`edit
      ensures sparks == if id in old(sparks) then old(sparks)[id := Applied(old(sparks)[id], prior)] else old(sparks)
      ensures edit == OnFailed(old(edit), id, SetOf(fields))
    {
      var _ := ApplySparkPatch(id, prior);
      ghost var after := sparks;
      if edit.Some? && edit.value.sparkId == id {
        var e := edit.value;
        for i := 0 to |fields|
          invariant sparks == after
          invariant e == MovedBack(old(edit).value, SetOf(fields[..i]))
        {
          assert fields[..i + 1] == fields[..i] + [fields[i]];
          assert SetOf(fields[..i + 1]) == SetOf(fields[..i]) + {fields[i]};
          MoveOne(old(edit).value, SetOf(fields[..i]), fields[i]);
          if fields[i] in e.inFlight {
            e := Edit(e.sparkId, e.drafts[fields[i] := e.inFlight[fields[i]]], e.inFlight - {fields[i]});
          }
        }
        assert fields[..|fields|] == fields;
        edit := Some(e);
      }
    }
  }

  lemma MoveOne(e: Edit, done: set<Field>, f: Field)
    ensures var m := MovedBack(e, done);
      MovedBack(e, done + {f}) ==
      if f in m.inFlight then Edit(m.sparkId, m.drafts[f := m.inFlight[f]], m.inFlight - {f}) else m
  {
    var m, l := MovedBack(e, done), MovedBack(e, done + {f});
    if f in m.inFlight {
      assert l.inFlight == m.inFlight - {f};
      assert l.drafts == m.drafts[f := m.inFlight[f]];
    } else {
      assert l.inFlight == m.inFlight;
      assert l.drafts == m.drafts;
    }
  }

  lemma AllColumns()
    ensures COLUMNS[..|COLUMNS|] == COLUMNS && forall c: Column :: c in COLUMNS
  {
    assert COLUMNS == [Title, Description, Status, Priority, Type, Assignee, Owner, Risk, Scope];
    forall c: Column ensures c in COLUMNS {
      match c
      case Title => assert COLUMNS[0] == c;
      case Description => assert COLUMNS[1] == c;
      case Status => assert COLUMNS[2] == c;
      case Priority => assert COLUMNS[3] == c;
      case Type => assert COLUMNS[4] == c;
      case Assignee => assert COLUMNS[5] == c;
      case Owner => assert COLUMNS[6] == c;
      case Risk => assert COLUMNS[7] == c;
      case Scope => assert COLUMNS[8] == c;
    }
  }
}
