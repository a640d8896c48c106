// src/cli.rs, data/src/sparks/watch_repo.rs: creating, replacing and cancelling watches under
// the partial unique index on (target, intent) over the rows that are not cancelled.
module Watches {
  import opened Prelude
  import opened WatchText

  datatype Status = Active | Completed | Cancelled

  // The stored stop condition: the encoding of a condition, or text that does not decode.
  datatype StopText = Encoded(stop: Stop) | Malformed(text: string)

  datatype Watch = Watch(id: string, target: string, cadence: string, stop: Option<StopText>, intent: string, status: Status)

  datatype NewWatch = NewWatch(target: string, cadence: Cadence, stop: Option<Stop>, intent: string)

  datatype Outcome =
    | Written(id: string)
    | AlreadyExists(reported: Option<string>)     // `None` is printed as "unknown"
    | Duplicate
    | NotFound
    | BadCadence
    | DatabaseError                               // the generated id is taken

  predicate Live(w: Watch) { w.status != Cancelled }

  predicate SameKey(w: Watch, target: string, intent: string) { w.target == target && w.intent == intent }

  ghost predicate Inv(rows: seq<Watch>) {
    && (forall i, j :: 0 <= i < j < |rows| ==> rows[i].id != rows[j].id)
    && (forall i, j :: 0 <= i < |rows| && 0 <= j < |rows| && Live(rows[i]) && Live(rows[j])
                       && SameKey(rows[j], rows[i].target, rows[i].intent)
          ==> i == j)
  }

  predicate IdTaken(rows: seq<Watch>, id: string) {
    exists i :: 0 <= i < |rows| && rows[i].id == id
  }

  predicate KeyTaken(rows: seq<Watch>, target: string, intent: string) {
    exists i :: 0 <= i < |rows| && Live(rows[i]) && SameKey(rows[i], target, intent)
  }

  // `Never` is stored as NULL.
  function Row(id: string, wanted: NewWatch): Watch {
    Watch(id, wanted.target, ToStorage(wanted.cadence),
          if wanted.stop.None? || wanted.stop == Some(Never) then None else Some(Encoded(wanted.stop.value)),
          wanted.intent, Active)
  }

  function Insert(rows: seq<Watch>, id: string, wanted: NewWatch): (seq<Watch>, Outcome) {
    if IdTaken(rows, id) then (rows, DatabaseError)
    else if KeyTaken(rows, wanted.target, wanted.intent) then (rows, Duplicate)
    else (rows + [Row(id, wanted)], Written(id))
  }

  // The newest active row with the key: what a refused create looks up to report.
  function ActiveWithKey(rows: seq<Watch>, target: string, intent: string): Option<string> {
    if rows == [] then None
    else
      var w := rows[|rows| - 1];
      if w.status == Active && SameKey(w, target, intent) then Some(w.id)
      else ActiveWithKey(rows[..|rows| - 1], target, intent)
  }

  function Create(rows: seq<Watch>, id: string, wanted: NewWatch): (seq<Watch>, Outcome) {
    var (rows', outcome) := Insert(rows, id, wanted);
    (rows', if outcome == Duplicate then AlreadyExists(ActiveWithKey(rows, wanted.target, wanted.intent)) else outcome)
  }

  function SetStatus(rows: seq<Watch>, id: string, status: Status): (r: seq<Watch>)
    ensures |r| == |rows|
    ensures forall i :: 0 <= i < |rows| ==> r[i] == if rows[i].id == id then rows[i].(status := status) else rows[i]
  {
    seq(|rows|, i requires 0 <= i < |rows| => if rows[i].id == id then rows[i].(status := status) else rows[i])
  }

  function Cancel(rows: seq<Watch>, id: string): (seq<Watch>, Outcome) {
    if IdTaken(rows, id) then (SetStatus(rows, id, Cancelled), Written(id)) else (rows, NotFound)
  }

  // Flags of `watch replace`; the stop condition given on the command line is already parsed.
  datatype Flags = Flags(cadence: Option<string>, stop: Option<Stop>, intent: Option<string>)

  function Get(rows: seq<Watch>, id: string): (r: Option<Watch>)
    ensures r.Some? <==> IdTaken(rows, id)
    ensures r.Some? ==> r.value in rows && r.value.id == id
  {
    if rows == [] then None
    else if rows[0].id == id then Some(rows[0])
    else
      assert forall i :: 0 < i < |rows| ==> rows[i] == rows[1..][i - 1];
      Get(rows[1..], id)
  }

  // The existing condition, unless it is `Never` or does not decode.
  function InheritedStop(w: Watch): Option<Stop> {
    match w.stop
    case Some(Encoded(stop)) => if stop == Never then None else Some(stop)
    case _ => None
  }

  function Merged(w: Watch, flags: Flags): Option<NewWatch> {
    match (if flags.cadence.Some? then ParseCadence(flags.cadence.value) else FromStorage(w.cadence))
    case None => None
    case Some(cadence) =>
      Some(NewWatch(w.target, cadence,
                    if flags.stop.Some? then flags.stop else InheritedStop(w),
                    if flags.intent.Some? then flags.intent.value else w.intent))
  }

  // Cancel and insert in one transaction: a refused insert undoes the cancel.
  function Replace(rows: seq<Watch>, existingId: string, newId: string, flags: Flags): (seq<Watch>, Outcome) {
    match Get(rows, existingId)
    case None => (rows, NotFound)
    case Some(w) =>
      match Merged(w, flags)
      case None => (rows, BadCadence)
      case Some(wanted) =>
        var (rows', outcome) := Insert(SetStatus(rows, existingId, Cancelled), newId, wanted);
        if outcome.Written? then (rows', outcome) else (rows, outcome)
  }

  // ---- Uniqueness --------------------------------------------------------------------------------

  lemma InsertKeepsInv(rows: seq<Watch>, id: string, wanted: NewWatch)
    requires Inv(rows)
    ensures Inv(Insert(rows, id, wanted).0)
  {
    var rows' := Insert(rows, id, wanted).0;
    forall i, j | 0 <= i < |rows'| && 0 <= j < |rows'| && Live(rows'[i]) && Live(rows'[j])
                  && SameKey(rows'[j], rows'[i].target, rows'[i].intent)
      ensures i == j
    {
      assert i < |rows| ==> rows'[i] == rows[i];
      assert j < |rows| ==> rows'[j] == rows[j];
    }
  }

  lemma SetStatusKeepsInv(rows: seq<Watch>, id: string, status: Status)
    requires Inv(rows)
    requires status == Cancelled || forall i :: 0 <= i < |rows| && rows[i].id == id ==> Live(rows[i])
    ensures Inv(SetStatus(rows, id, status))
  {
    var rows' := SetStatus(rows, id, status);
    forall i, j | 0 <= i < |rows'| && 0 <= j < |rows'| && Live(rows'[i]) && Live(rows'[j])
                  && SameKey(rows'[j], rows'[i].target, rows'[i].intent)
      ensures i == j
    {
      assert Live(rows[i]) && Live(rows[j]) && SameKey(rows[j], rows[i].target, rows[i].intent);
    }
  }

  datatype Command =
    | CCreate(id: string, wanted: NewWatch)
    | CReplace(existingId: string, newId: string, flags: Flags)
    | CCancel(id: string)
    | CComplete(id: string)      // the scheduler finds an active watch's stop condition satisfied

  function Step(rows: seq<Watch>, c: Command): seq<Watch> {
    match c
    case CCreate(id, wanted) => Create(rows, id, wanted).0
    case CReplace(existingId, newId, flags) => Replace(rows, existingId, newId, flags).0
    case CCancel(id) => Cancel(rows, id).0
    case CComplete(id) =>
      match Get(rows, id)
      case None => rows
      case Some(w) => if w.status == Active then SetStatus(rows, id, Completed) else rows
  }

  function Run(commands: seq<Command>): seq<Watch> {
    if commands == [] then [] else Step(Run(commands[..|commands| - 1]), commands[|commands| - 1])
  }

  lemma StepKeepsInv(rows: seq<Watch>, c: Command)
    requires Inv(rows)
    ensures Inv(Step(rows, c))
  {
    match c
    case CCreate(id, wanted) => InsertKeepsInv(rows, id, wanted);
    case CReplace(existingId, newId, flags) =>
      SetStatusKeepsInv(rows, existingId, Cancelled);
      if Get(rows, existingId).Some? && Merged(Get(rows, existingId).value, flags).Some? {
        InsertKeepsInv(SetStatus(rows, existingId, Cancelled), newId, Merged(Get(rows, existingId).value, flags).value);
      }
    case CCancel(id) => SetStatusKeepsInv(rows, id, Cancelled);
    case CComplete(id) =>
      var w := Get(rows, id);
      if w.Some? && w.value.status == Active {
        var k :| 0 <= k < |rows| && rows[k] == w.value;
        SetStatusKeepsInv(rows, id, Completed);
      }
  }

  // At most one row per (target, intent) is not cancelled, after every run of commands.
  lemma {:induction false} RunKeepsInv(commands: seq<Command>)
    ensures Inv(Run(commands))
  {
    if commands != [] {
      RunKeepsInv(commands[..|commands| - 1]);
      StepKeepsInv(Run(commands[..|commands| - 1]), commands[|commands| - 1]);
    }
  }

  // ---- What a refusal reports ----------------------------------------------------------------------

  lemma {:induction false} ActiveWithKeyFinds(rows: seq<Watch>, target: string, intent: string)
    ensures var r := ActiveWithKey(rows, target, intent);
      if r.Some? then exists i :: 0 <= i < |rows| && rows[i].id == r.value && rows[i].status == Active && SameKey(rows[i], target, intent)
      else forall i :: 0 <= i < |rows| ==> rows[i].status != Active || !SameKey(rows[i], target, intent)
  {
    if rows != [] {
      var init := rows[..|rows| - 1];
      ActiveWithKeyFinds(init, target, intent);
      assert forall i :: 0 <= i < |init| ==> init[i] == rows[i];
    }
  }

  // Row `i` is not cancelled and has the key.
  ghost predicate Holds(rows: seq<Watch>, i: int, wanted: NewWatch) {
    0 <= i < |rows| && Live(rows[i]) && SameKey(rows[i], wanted.target, wanted.intent)
  }

  // A create under a fresh id is refused if and only if some row that is not cancelled has the key, and
  // otherwise appends the row as asked. The row in the way is the only one; its id is reported if it is
  // active, "unknown" if it is completed, and nothing changes.
  lemma CreateRefusedExactly(rows: seq<Watch>, id: string, wanted: NewWatch)
    requires Inv(rows) && !IdTaken(rows, id)
    ensures var (rows', outcome) := Create(rows, id, wanted);
      && (outcome.AlreadyExists? <==> exists i :: Holds(rows, i, wanted))
      && (!outcome.AlreadyExists? ==> outcome == Written(id) && rows' == rows + [Row(id, wanted)])
      && (forall i :: Holds(rows, i, wanted) ==>
            && rows' == rows
            && outcome == AlreadyExists(if rows[i].status == Active then Some(rows[i].id) else None)
            && forall j :: Holds(rows, j, wanted) ==> j == i)
  {
    assert KeyTaken(rows, wanted.target, wanted.intent) ==> exists i :: Holds(rows, i, wanted) by {
      if i :| 0 <= i < |rows| && Live(rows[i]) && SameKey(rows[i], wanted.target, wanted.intent) {
        assert Holds(rows, i, wanted);
      }
    }
    forall i | Holds(rows, i, wanted)
      ensures Create(rows, id, wanted) == (rows, AlreadyExists(if rows[i].status == Active then Some(rows[i].id) else None))
      ensures forall j :: Holds(rows, j, wanted) ==> j == i
    {
      RefusalReportsTheOne(rows, id, wanted, i);
    }
  }

  lemma RefusalReportsTheOne(rows: seq<Watch>, id: string, wanted: NewWatch, i: int)
    requires Inv(rows) && !IdTaken(rows, id) && Holds(rows, i, wanted)
    ensures Create(rows, id, wanted) == (rows, AlreadyExists(if rows[i].status == Active then Some(rows[i].id) else None))
    ensures forall j :: Holds(rows, j, wanted) ==> j == i
  {
    ActiveWithKeyFinds(rows, wanted.target, wanted.intent);
    forall j | Holds(rows, j, wanted) ensures j == i {
      assert SameKey(rows[j], rows[i].target, rows[i].intent);
    }
  }

  // ---- What a replacement inherits -----------------------------------------------------------------

  // The stored forms of a row this command can have written.
  predicate WellStored(w: Watch) {
    FromStorage(w.cadence).Some? && (w.stop.None? || (w.stop.value.Encoded? && w.stop.value.stop != Never))
  }

  // Position `i` is replaced: it is cancelled, every other row stands, and the new row differs
  // from the old one only where a flag was given. Without flags it is the old row under a wanted id.
  lemma ReplaceInherits(rows: seq<Watch>, i: nat, newId: string, flags: Flags)
    requires Inv(rows) && i < |rows| && Replace(rows, rows[i].id, newId, flags).1.Written?
    ensures var rows' := Replace(rows, rows[i].id, newId, flags).0; var wanted := rows'[|rows|];
      && |rows'| == |rows| + 1
      && rows'[i] == rows[i].(status := Cancelled)
      && (forall k :: 0 <= k < |rows| && k != i ==> rows'[k] == rows[k])
      && wanted.id == newId && wanted.status == Active && wanted.target == rows[i].target
      && wanted.intent == (if flags.intent.Some? then flags.intent.value else rows[i].intent)
      && (flags.cadence.None? ==> FromStorage(wanted.cadence) == FromStorage(rows[i].cadence))
      && (flags.cadence.Some? ==> FromStorage(wanted.cadence) == ParseCadence(flags.cadence.value))
      && (flags.stop.None? && WellStored(rows[i]) ==> wanted.stop == rows[i].stop)
      && (flags.stop.Some? ==> wanted.stop == if flags.stop.value == Never then None else Some(Encoded(flags.stop.value)))
  {
    var w := Get(rows, rows[i].id).value;
    var k :| 0 <= k < |rows| && rows[k] == w;
    assert k == i;
    var cadence := Merged(w, flags).value.cadence;
    ParsedCadencesPrint(if flags.cadence.Some? then flags.cadence.value else w.cadence, cadence);
  }

  // A cadence that came from text can be printed and read back.
  lemma ParsedCadencesPrint(raw: string, c: Cadence)
    requires ParseCadence(raw) == Some(c) || FromStorage(raw) == Some(c)
    ensures FromStorage(ToStorage(c)) == Some(c)
  {
    CadenceRoundTrip(c);
    assert ToStorage(c)[0] == if c.Interval? then 'i' else 'c';
  }

  // A replacement is refused as a duplicate exactly when a row other than the replaced one holds
  // the new key, and then nothing changes.
  lemma ReplaceRefusedExactly(rows: seq<Watch>, i: nat, newId: string, flags: Flags)
    requires Inv(rows) && i < |rows| && !IdTaken(rows, newId) && Merged(rows[i], flags).Some?
    ensures var intent := if flags.intent.Some? then flags.intent.value else rows[i].intent;
      Replace(rows, rows[i].id, newId, flags).1 == Duplicate
      <==> exists j :: 0 <= j < |rows| && j != i && Live(rows[j]) && SameKey(rows[j], rows[i].target, intent)
    ensures Replace(rows, rows[i].id, newId, flags).1 == Duplicate ==> Replace(rows, rows[i].id, newId, flags).0 == rows
  {
    var w := Get(rows, rows[i].id).value;
    var k :| 0 <= k < |rows| && rows[k] == w;
    assert k == i;
    var cancelled := SetStatus(rows, rows[i].id, Cancelled);
    var intent := if flags.intent.Some? then flags.intent.value else rows[i].intent;
    assert !IdTaken(cancelled, newId);
    if j :| 0 <= j < |rows| && j != i && Live(rows[j]) && SameKey(rows[j], rows[i].target, intent) {
      assert cancelled[j] == rows[j];
    }
    if j :| 0 <= j < |cancelled| && Live(cancelled[j]) && SameKey(cancelled[j], rows[i].target, intent) {
      assert j != i && rows[j] == cancelled[j];
    }
  }

  // A stored condition that does not decode is dropped without a word: the new watch never stops.
  lemma MalformedStopIsDropped(rows: seq<Watch>, i: nat, newId: string, flags: Flags)
    requires Inv(rows) && i < |rows| && Replace(rows, rows[i].id, newId, flags).1.Written?
    requires flags.stop.None? && rows[i].stop.Some? && rows[i].stop.value.Malformed?
    ensures Replace(rows, rows[i].id, newId, flags).0[|rows|].stop == None
  {
    var w := Get(rows, rows[i].id).value;
    var k :| 0 <= k < |rows| && rows[k] == w;
    assert k == i;
  }

  // A replacement finds nothing exactly if no row has the id; it needs a cadence exactly if none is given
  // that parses and the stored one does not decode; it is a duplicate as above; and in all other cases the
  // new watch is written. Unless it is, nothing changes.
  lemma ReplaceEndsExactly(rows: seq<Watch>, id: string, newId: string, flags: Flags)
    requires Inv(rows) && !IdTaken(rows, newId)
    ensures var (rows', outcome) := Replace(rows, id, newId, flags);
      && (outcome == NotFound <==> forall i :: 0 <= i < |rows| ==> rows[i].id != id)
      && (forall i :: 0 <= i < |rows| && rows[i].id == id ==>
            && (outcome == BadCadence <==>
                  if flags.cadence.Some? then ParseCadence(flags.cadence.value).None? else FromStorage(rows[i].cadence).None?)
            && (outcome in {BadCadence, Duplicate, Written(newId)}))
      && (outcome != Written(newId) ==> rows' == rows)
  {
    if Get(rows, id).Some? {
      var w := Get(rows, id).value;
      forall i | 0 <= i < |rows| && rows[i].id == id ensures rows[i] == w {
        var k :| 0 <= k < |rows| && rows[k] == w;
        assert k == i;
      }
      var cancelled := SetStatus(rows, id, Cancelled);
      assert !IdTaken(cancelled, newId);
    }
  }

  // ---- What a cancel does ----------------------------------------------------------------------------

  // A cancel of an id that some row has marks that row cancelled and lets every other row stand; a cancel
  // of any other id finds nothing and changes nothing.
  lemma CancelExactly(rows: seq<Watch>, id: string)
    requires Inv(rows)
    ensures Step(rows, CCancel(id)) == Cancel(rows, id).0
    ensures var (rows', outcome) := Cancel(rows, id);
      && |rows'| == |rows|
      && (forall i :: 0 <= i < |rows| ==>
            rows'[i] == if rows[i].id == id
                        then Watch(id, rows[i].target, rows[i].cadence, rows[i].stop, rows[i].intent, Cancelled) else rows[i])
      && outcome == if exists i :: 0 <= i < |rows| && rows[i].id == id then Written(id) else NotFound
  {
  }

  // Cancelling frees the key: a create of it under a fresh id then succeeds.
  lemma CancelFreesKey(rows: seq<Watch>, i: nat, id: string, wanted: NewWatch)
    requires Inv(rows) && i < |rows| && Live(rows[i]) && SameKey(rows[i], wanted.target, wanted.intent)
    requires forall j :: 0 <= j < |rows| ==> rows[j].id != id
    ensures var rows' := Step(rows, CCancel(rows[i].id));
      && rows'[i].status == Cancelled
      && Create(rows', id, wanted).1 == Written(id)
      && |Step(rows', CCreate(id, wanted))| == |rows| + 1
      && var w := Step(rows', CCreate(id, wanted))[|rows|];
         w.id == id && w.target == wanted.target && w.intent == wanted.intent && w.status == Active
  {
    CancelExactly(rows, rows[i].id);
    var rows' := Step(rows, CCancel(rows[i].id));
    forall j | 0 <= j < |rows'| && Live(rows'[j]) ensures !SameKey(rows'[j], wanted.target, wanted.intent) {
      assert rows'[j] == rows[j] && j != i;
      assert SameKey(rows[j], rows[i].target, rows[i].intent) ==> j == i;
    }
  }

  // Completing marks an active watch completed and touches nothing else.
  lemma CompleteExactly(rows: seq<Watch>, id: string)
    requires Inv(rows)
    ensures var rows' := Step(rows, CComplete(id));
      && |rows'| == |rows|
      && forall i :: 0 <= i < |rows| ==>
           rows'[i] == if rows[i].id == id && rows[i].status == Active then rows[i].(status := Completed) else rows[i]
  {
    if Get(rows, id).Some? {
      forall i | 0 <= i < |rows| && rows[i].id == id ensures rows[i] == Get(rows, id).value {
        var k :| 0 <= k < |rows| && rows[k] == Get(rows, id).value;
        assert k == i;
      }
    }
  }

  // What a create stores of what it was asked for.
  lemma StoredAsAsked(rows: seq<Watch>, id: string, wanted: NewWatch)
    requires Create(rows, id, wanted).1.Written?
    requires wanted.cadence != Cron("") && (wanted.cadence.Interval? ==> wanted.cadence.secs < U64_LIMIT)
    ensures var rows' := Create(rows, id, wanted).0;
      && |rows'| == |rows| + 1 && rows'[..|rows|] == rows
      && var w := rows'[|rows|];
         && w.id == id && w.target == wanted.target && w.intent == wanted.intent && w.status == Active
         && FromStorage(w.cadence) == Some(wanted.cadence)
         && (w.stop.None? <==> wanted.stop.None? || wanted.stop == Some(Never))
         && (w.stop.Some? ==> w.stop.value == Encoded(wanted.stop.value))
  {
    CadenceRoundTrip(wanted.cadence);
    assert ToStorage(wanted.cadence)[0] == if wanted.cadence.Interval? then 'i' else 'c';
    ParsedCadencesPrint(ToStorage(wanted.cadence), wanted.cadence);
  }

  // ---- The commands --------------------------------------------------------------------------------

  class WatchTable {
    var rows: seq<Watch>

    method CreateWatch(id: string, wanted: NewWatch) returns (outcome: Outcome)
      requires Inv(rows)
      modifies this
      ensures (rows, outcome) == Create(old(rows), id, wanted) && Inv(rows)
    {
      InsertKeepsInv(rows, id, wanted);
      var (inserted, result) := Insert(rows, id, wanted);
      outcome := result;
      if result == Duplicate {
        outcome := AlreadyExists(ActiveWithKey(rows, wanted.target, wanted.intent));
      }
      rows := inserted;
    }

    method CancelWatch(id: string) returns (outcome: Outcome)
      requires Inv(rows)
      modifies this
      ensures (rows, outcome) == Cancel(old(rows), id) && Inv(rows)
    {
      SetStatusKeepsInv(rows, id, Cancelled);
      if Get(rows, id).None? {
        return NotFound;
      }
      rows := SetStatus(rows, id, Cancelled);
      outcome := Written(id);
    }

    method ReplaceWatch(existingId: string, newId: string, flags: Flags) returns (outcome: Outcome)
      requires Inv(rows)
      modifies this
      ensures (rows, outcome) == Replace(old(rows), existingId, newId, flags) && Inv(rows)
    {
      StepKeepsInv(rows, CReplace(existingId, newId, flags));
      var existing := Get(rows, existingId);
      if existing.None? {
        return NotFound;
      }
      var wanted := Merged(existing.value, flags);
      if wanted.None? {
        return BadCadence;
      }
      var before := rows;
      rows := SetStatus(rows, existingId, Cancelled);
      var (inserted, result) := Insert(rows, newId, wanted.value);
      outcome := result;
      rows := if result.Written? then inserted else before;
    }
  }
}
