// src/workshop.rs, data/src/sparks/spark_repo.rs: patches of a cached spark, their inverses, and the
// update that the database receives.
module SparkPatch {
  import opened Prelude

  // ---- The metadata document -----------------------------------------------------------------------

  // What stands at `intent.problem_statement`; Wrong is neither null nor a string.
  datatype Problem = Absent | Null | Text(text: string) | Wrong

  // What stands at `intent`. `parsed` is the problem text that a value other than an object parses to;
  // `wellTyped` says that the sibling entries parse, without which nothing of the intent does.
  datatype Intent =
    | Missing
    | NonObject(parsed: string)
    | Fields(problem: Problem, siblings: map<string, string>, wellTyped: bool)

  // Opaque text is not JSON, or not an object.
  datatype Doc = Opaque(raw: string) | Object(intent: Intent, others: map<string, string>)

  // `Spark::intent().problem_statement`, empty when there is none.
  function Shown(doc: Doc): string {
    match doc
    case Object(NonObject(parsed), _) => parsed
    case Object(Fields(Text(text), _, true), _) => text
    case _ => ""
  }

  function Put(text: string): Problem {
    if text == "" then Absent else Text(text)
  }

  function Merge(doc: Doc, text: string): Doc {
    match doc
    case Opaque(_) => Object(Fields(Put(text), map[], true), map[])
    case Object(Fields(_, siblings, wellTyped), others) => Object(Fields(Put(text), siblings, wellTyped), others)
    case Object(_, others) => Object(Fields(Put(text), map[], true), others)
  }

  // An edit of the problem statement: writes only when the shown text changes.
  function Edited(doc: Doc, text: string): Doc {
    if text == Shown(doc) then doc else Merge(doc, text)
  }

  predicate IllTyped(doc: Doc) {
    doc.Object? && doc.intent.Fields? && !doc.intent.wellTyped
  }

  // An edit is shown afterwards, unless the sibling entries do not parse; siblings of an object intent
  // and the other metadata stay.
  lemma EditIsShown(doc: Doc, text: string)
    ensures Shown(Edited(doc, text)) == text <==> !IllTyped(doc) || text == ""
    ensures doc.Object? ==> Edited(doc, text).Object? && Edited(doc, text).others == doc.others
    ensures doc.Object? && doc.intent.Fields? ==>
              Edited(doc, text).intent.Fields? && Edited(doc, text).intent.siblings == doc.intent.siblings
  {
  }

  // The documents that rolling back an edit to `text` restores. A caller can check this beforehand.
  predicate Restorable(doc: Doc, text: string) {
    || text == Shown(doc)
    || (&& doc.Object? && doc.intent.Fields?
        && if doc.intent.wellTyped then doc.intent.problem == Put(Shown(doc)) else doc.intent.problem == Text(text))
  }

  // Undoing an edit always shows the old text again, and restores the document exactly when it was
  // restorable: "{}" for one is not, it comes back with an empty intent.
  lemma UndoExactly(doc: Doc, text: string)
    ensures Shown(Edited(Edited(doc, text), Shown(doc))) == Shown(doc)
    ensures Edited(Edited(doc, text), Shown(doc)) == doc <==> Restorable(doc, text)
  {
  }

  // ---- Rows and patches ----------------------------------------------------------------------------

  datatype Column = Title | Description | Status | Priority | Type | Assignee | Owner | Risk | Scope

  datatype Value = Str(text: string) | Num(n: int) | Opt(value: Option<string>)

  type Cells = m: map<Column, Value> | forall c: Column :: c in m
    witness map c: Column :: Num(0)

  datatype Row = Row(cells: Cells, doc: Doc)

  datatype Patch = Patch(sets: map<Column, Value>, problem: Option<string>)

  const COLUMNS: seq<Column> := [Title, Description, Status, Priority, Type, Assignee, Owner, Risk, Scope]

  predicate IsEmpty(p: Patch) { p.sets == map[] && p.problem.None? }

  function Applied(row: Row, p: Patch): Row {
    Row(row.cells + p.sets, if p.problem.None? then row.doc else Edited(row.doc, p.problem.value))
  }

  // The inverse patch: the old value of everything that changed.
  function Prior(row: Row, p: Patch): Patch {
    Patch(map c | c in p.sets && row.cells[c] != p.sets[c] :: row.cells[c],
          if p.problem.Some? && p.problem.value != Shown(row.doc) then Some(Shown(row.doc)) else None)
  }

  // ---- The update that is stored -------------------------------------------------------------------

  datatype Update = Update(sets: map<Column, Value>, metadata: Option<Doc>)

  const STATUSES: set<string> := {"open", "in_progress", "blocked", "deferred", "closed"}
  const TYPES: set<string> := {"bug", "feature", "task", "epic", "chore", "spike", "milestone"}
  const RISKS: set<string> := {"trivial", "normal", "elevated", "critical"}

  // The values `to_update_spark` keeps: known names only, and a risk level that is not cleared.
  predicate Storable(c: Column, v: Value) {
    match c
    case Status => v.Str? && v.text in STATUSES
    case Type => v.Str? && v.text in TYPES
    case Risk => v.Opt? && v.value.Some? && v.value.value in RISKS
    case _ => true
  }

  // The whole document travels when the patch edits the problem statement.
  function ToUpdate(p: Patch, cached: Row): Update {
    Update(map c | c in p.sets && Storable(c, p.sets[c]) :: p.sets[c],
           if p.problem.Some? then Some(cached.doc) else None)
  }

  function Stored(row: Row, u: Update): Row {
    Row(row.cells + u.sets, if u.metadata.Some? then u.metadata.value else row.doc)
  }

  // Column by column: the cache takes every value of the patch, the prior holds the old value of exactly
  // what changed, and the database takes exactly the values that can be stored.
  lemma ColumnsTaken(row: Row, p: Patch, c: Column)
    ensures Applied(row, p).cells[c] == if c in p.sets then p.sets[c] else row.cells[c]
    ensures c in Prior(row, p).sets <==> c in p.sets && p.sets[c] != row.cells[c]
    ensures c in Prior(row, p).sets ==> Prior(row, p).sets[c] == row.cells[c]
    ensures Stored(row, ToUpdate(p, Applied(row, p))).cells[c] ==
            if c in p.sets && Storable(c, p.sets[c]) then p.sets[c] else row.cells[c]
  {
  }

  // The problem statement: a text other than the one shown is written over the entry, or removes it if
  // empty, and the old text is the prior; the database takes the document as it then is in the cache.
  lemma ProblemTaken(row: Row, p: Patch)
    ensures var cached := Applied(row, p);
      && (p.problem.None? || p.problem == Some(Shown(row.doc)) ==> cached.doc == row.doc && Prior(row, p).problem == None)
      && (p.problem.Some? && p.problem.value != Shown(row.doc) ==>
            && Prior(row, p).problem == Some(Shown(row.doc))
            && cached.doc.Object? && cached.doc.intent.Fields?
            && cached.doc.intent.problem == if p.problem.value == "" then Absent else Text(p.problem.value))
      && Stored(row, ToUpdate(p, cached)).doc == cached.doc
  {
  }

  // ---- One edit, from agreement --------------------------------------------------------------------

  // A stored edit leaves cache and database equal exactly when each changed value could be stored.
  lemma StoredAgreesExactly(row: Row, p: Patch)
    ensures var cached := Applied(row, p);
      cached == Stored(row, ToUpdate(p, cached)) <==>
      forall c :: c in p.sets ==> Storable(c, p.sets[c]) || p.sets[c] == row.cells[c]
  {
    var cached := Applied(row, p);
    var stored := Stored(row, ToUpdate(p, cached));
    forall c: Column | c in p.sets
      ensures cached.cells[c] == stored.cells[c] <==> Storable(c, p.sets[c]) || p.sets[c] == row.cells[c]
    {
    }
    if forall c :: c in p.sets ==> Storable(c, p.sets[c]) || p.sets[c] == row.cells[c] {
      assert cached.cells == stored.cells;
    }
  }

  // A failed edit is rolled back: every column returns, and the document too exactly when restorable.
  lemma RollbackExactly(row: Row, p: Patch)
    ensures var back := Applied(Applied(row, p), Prior(row, p));
      && back.cells == row.cells
      && Shown(back.doc) == Shown(row.doc)
      && (back == row <==> p.problem.None? || Restorable(row.doc, p.problem.value))
  {
    var back := Applied(Applied(row, p), Prior(row, p));
    assert back.cells == row.cells;
    if p.problem.Some? { UndoExactly(row.doc, p.problem.value); }
  }

  // An edit that is stored although an error is reported: the cache is rolled back, the database is not.
  // They are equal exactly when nothing stored was a change, or the rollback of the document does nothing.
  lemma UnreportedAgreesExactly(row: Row, p: Patch)
    ensures var cached := Applied(row, p);
      Applied(cached, Prior(row, p)) == Stored(row, ToUpdate(p, cached)) <==>
      && (forall c :: c in p.sets ==> !Storable(c, p.sets[c]) || p.sets[c] == row.cells[c])
      && (p.problem.Some? ==> p.problem.value == Shown(row.doc) || IllTyped(row.doc))
  {
    var cached := Applied(row, p);
    var stored := Stored(row, ToUpdate(p, cached));
    RollbackExactly(row, p);
    forall c: Column | c in p.sets
      ensures row.cells[c] == stored.cells[c] <==> !Storable(c, p.sets[c]) || p.sets[c] == row.cells[c]
    {
    }
    if forall c :: c in p.sets ==> !Storable(c, p.sets[c]) || p.sets[c] == row.cells[c] {
      assert row.cells == stored.cells;
    }
    if p.problem.Some? { EditIsShown(row.doc, p.problem.value); }
  }

  datatype Outcome = StoredAndReported | NotStored | StoredUnreported

  // What leaves the fields of one edit in agreement, by how its write ends. All of it is known before.
  predicate EditAgrees(row: Row, p: Patch, outcome: Outcome) {
    match outcome
    case StoredAndReported => forall c :: c in p.sets ==> Storable(c, p.sets[c]) || p.sets[c] == row.cells[c]
    case NotStored => p.problem.Some? ==> Restorable(row.doc, p.problem.value)
    case StoredUnreported =>
      && (forall c :: c in p.sets ==> !Storable(c, p.sets[c]) || p.sets[c] == row.cells[c])
      && (p.problem.Some? ==> p.problem.value == Shown(row.doc) || IllTyped(row.doc))
  }

  // The cache after the reply and the database after the write.
  function Settled(row: Row, p: Patch, outcome: Outcome): (Row, Row) {
    var cached := Applied(row, p);
    (if outcome.StoredAndReported? then cached else Applied(cached, Prior(row, p)),
     if outcome.NotStored? then row else Stored(row, ToUpdate(p, cached)))
  }

  lemma EditAgreesExactly(row: Row, p: Patch, outcome: Outcome)
    ensures Settled(row, p, outcome).0 == Settled(row, p, outcome).1 <==> EditAgrees(row, p, outcome)
  {
    match outcome
    case StoredAndReported => StoredAgreesExactly(row, p);
    case NotStored => RollbackExactly(row, p);
    case StoredUnreported => UnreportedAgreesExactly(row, p);
  }

  // Writing the same text twice is writing it once.
  lemma EditTwice(doc: Doc, text: string)
    ensures Edited(Edited(doc, text), text) == Edited(doc, text)
  {
  }

  // An edit that the handler drops as a no-op changes nothing; and an edit that changes nothing is
  // dropped, unless the document's intent does not parse.
  lemma NoPriorNoChange(row: Row, p: Patch)
    ensures IsEmpty(Prior(row, p)) ==> Applied(row, p) == row
    ensures Applied(row, p) == row && !IllTyped(row.doc) ==> IsEmpty(Prior(row, p))
  {
    var prior := Prior(row, p);
    forall c | c in p.sets ensures row.cells[c] == p.sets[c] <==> c !in prior.sets {
    }
    if IsEmpty(prior) {
      assert Applied(row, p).cells == row.cells;
    }
    if Applied(row, p) == row && !IllTyped(row.doc) {
      forall c | c in p.sets ensures c !in prior.sets {
        assert Applied(row, p).cells[c] == p.sets[c];
      }
      assert prior.sets == map[];
      if p.problem.Some? { EditIsShown(row.doc, p.problem.value); }
    }
  }

  // ---- Two updates of one row ----------------------------------------------------------------------

  // `spark_repo::update` reads the row, then writes every column. When both updates read before either
  // writes, the second write decides; the result is that of running one after the other exactly when
  // the first one changed nothing that the second does not set.
  lemma OverlapLosesExactly(row: Row, first: Update, second: Update)
    ensures Stored(row, second) == Stored(Stored(row, first), second) <==>
      && (forall c :: c in first.sets && c !in second.sets ==> first.sets[c] == row.cells[c])
      && (first.metadata.Some? && second.metadata.None? ==> first.metadata.value == row.doc)
  {
    var lone, both := Stored(row, second), Stored(Stored(row, first), second);
    forall c: Column | c in first.sets && c !in second.sets
      ensures lone.cells[c] == both.cells[c] <==> first.sets[c] == row.cells[c]
    {
    }
    if forall c :: c in first.sets && c !in second.sets ==> first.sets[c] == row.cells[c] {
      assert lone.cells == both.cells;
    }
  }
}
