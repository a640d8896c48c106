// src/app.rs: merging persisted agent sessions into the in-memory list, and reconciling the ones
// whose process has died.
module Sessions {
  import opened Prelude

  // A row of `agent_sessions`.
  datatype Row = Row(id: string, ended: bool, childPid: Option<int>, sessionLabel: Option<string>)

  datatype Session = Session(id: string, tabId: Option<nat>, active: bool, stale: bool)

  type Snapshot = Option<set<int>>    // the live process ids, once a poll has captured them

  datatype Display = Active | History | Stale

  function Classify(ended: bool, hasTab: bool, alive: bool): Display {
    if ended then History else if hasTab || alive then Active else Stale
  }

  // The pid is known, a snapshot exists, and the snapshot does not have the pid.
  predicate ProcessGone(row: Row, snapshot: Snapshot) {
    !row.ended && snapshot.Some? && row.childPid.Some? && row.childPid.value !in snapshot.value
  }

  predicate Alive(row: Row, snapshot: Snapshot) {
    || (snapshot.Some? && row.childPid.Some? && row.childPid.value in snapshot.value)
    || (!row.ended && row.childPid.None? && row.sessionLabel in {Some("hand"), Some("head"), Some("merger")})
  }

  function Ids(sessions: seq<Session>): (r: seq<string>)
    ensures |r| == |sessions| && forall i :: 0 <= i < |r| ==> r[i] == sessions[i].id
  {
    seq(|sessions|, i requires 0 <= i < |sessions| => sessions[i].id)
  }

  function RowIds(rows: seq<Row>): (r: seq<string>)
    ensures |r| == |rows| && forall i :: 0 <= i < |r| ==> r[i] == rows[i].id
  {
    seq(|rows|, i requires 0 <= i < |rows| => rows[i].id)
  }

  function Find(sessions: seq<Session>, id: string): (r: Option<nat>)
    ensures r.Some? ==> r.value < |sessions| && sessions[r.value].id == id
    ensures r.None? <==> id !in Ids(sessions)
  {
    if sessions == [] then None
    else if sessions[0].id == id then Some(0)
    else
      assert Ids(sessions)[1..] == Ids(sessions[1..]);
      match Find(sessions[1..], id) case None => None case Some(i) => Some(i + 1)
  }

  function TabOf(sessions: seq<Session>, id: string): Option<nat> {
    match Find(sessions, id) case None => None case Some(i) => sessions[i].tabId
  }

  // The session that `row` describes, given the tab it is shown in.
  function Described(row: Row, tab: Option<nat>, snapshot: Snapshot): Session {
    var display := Classify(row.ended, tab.Some?, Alive(row, snapshot));
    Session(row.id, tab, display == Active, display == Stale)
  }

  function MergeRow(sessions: seq<Session>, known: set<string>, row: Row, snapshot: Snapshot): seq<Session> {
    var described := Described(row, TabOf(sessions, row.id), snapshot);
    if row.id in known then
      match Find(sessions, row.id)
      case None => sessions
      case Some(i) => sessions[i := described]
    else sessions + [described]
  }

  function KnownIds(sessions: seq<Session>): set<string> {
    set id | id in Ids(sessions)
  }

  function Merge(sessions: seq<Session>, rows: seq<Row>, snapshot: Snapshot): seq<Session> {
    if rows == [] then sessions
    else MergeRow(Merge(sessions, rows[..|rows| - 1], snapshot), KnownIds(sessions), rows[|rows| - 1], snapshot)
  }

  function UnknownRows(known: set<string>, rows: seq<Row>): seq<Row> {
    if rows == [] then []
    else UnknownRows(known, rows[..|rows| - 1])
         + if rows[|rows| - 1].id in known then [] else [rows[|rows| - 1]]
  }

  // Ids queued for reconciliation, in row order.
  function DeadQueue(sessions: seq<Session>, rows: seq<Row>, snapshot: Snapshot): seq<string> {
    if rows == [] then []
    else
      var row := rows[|rows| - 1];
      DeadQueue(sessions, rows[..|rows| - 1], snapshot)
      + if ProcessGone(row, snapshot) && TabOf(sessions, row.id).None? then [row.id] else []
  }

  // ---- What a merge keeps ----------------------------------------------------------------------

  lemma {:induction false} FindUnique(sessions: seq<Session>, i: nat)
    requires i < |sessions| && Distinct(Ids(sessions))
    ensures Find(sessions, sessions[i].id) == Some(i)
  {
    var found := Find(sessions, sessions[i].id).value;
    assert Ids(sessions)[i] in Ids(sessions);
    assert Ids(sessions)[found] == Ids(sessions)[i];
  }

  ghost predicate Settled(before: seq<Session>, rows: seq<Row>, snapshot: Snapshot, after: seq<Session>) {
    var known := KnownIds(before);
    && |after| == |before| + |UnknownRows(known, rows)|
    && Distinct(Ids(after))
    && (forall i :: 0 <= i < |before| ==> after[i].id == before[i].id && after[i].tabId == before[i].tabId)
    && (forall i :: 0 <= i < |before| && before[i].id !in RowIds(rows) ==> after[i] == before[i])
    && (forall i :: |before| <= i < |after| ==>
          after[i] == Described(UnknownRows(known, rows)[i - |before|], None, snapshot))
    && (forall i, k :: 0 <= i < |before| && 0 <= k < |rows| && before[i].id == rows[k].id ==>
          after[i] == Described(rows[k], before[i].tabId, snapshot))
  }

  lemma {:induction false} UnknownRowsMembers(known: set<string>, rows: seq<Row>)
    ensures forall row :: row in UnknownRows(known, rows) <==> row in rows && row.id !in known
  {
    if rows != [] {
      UnknownRowsMembers(known, rows[..|rows| - 1]);
      assert rows == rows[..|rows| - 1] + [rows[|rows| - 1]];
    }
  }

  // Where the id of the next row stands in the list merged so far: only among the known ones.
  lemma NextRowPlace(before: seq<Session>, rows: seq<Row>, snapshot: Snapshot, so: seq<Session>, row: Row)
    requires Distinct(Ids(before)) && Distinct(RowIds(rows + [row]))
    requires Settled(before, rows, snapshot, so)
    ensures Find(so, row.id) == Find(before, row.id)
    ensures row.id in KnownIds(before) <==> Find(before, row.id).Some?
  {
    UnknownRowsMembers(KnownIds(before), rows);
    forall i | |before| <= i < |so| ensures so[i].id != row.id {
      var r := UnknownRows(KnownIds(before), rows)[i - |before|];
      assert r in UnknownRows(KnownIds(before), rows);
      var k :| 0 <= k < |rows| && rows[k] == r;
      assert RowIds(rows + [row])[k] == r.id && RowIds(rows + [row])[|rows|] == row.id;
    }
    match Find(before, row.id)
    case Some(i) =>
      FindUnique(so, i);
      assert so[i].id == row.id;
    case None =>
      forall i | 0 <= i < |before| ensures so[i].id != row.id {
        assert Ids(before)[i] in Ids(before);
      }
      assert forall i :: 0 <= i < |so| ==> Ids(so)[i] != row.id;
  }

  lemma MergeRowSettles(before: seq<Session>, rows: seq<Row>, snapshot: Snapshot, so: seq<Session>, row: Row)
    requires Distinct(Ids(before)) && Distinct(RowIds(rows + [row]))
    requires Settled(before, rows, snapshot, so)
    ensures Settled(before, rows + [row], snapshot, MergeRow(so, KnownIds(before), row, snapshot))
  {
    var known := KnownIds(before);
    var after := MergeRow(so, known, row, snapshot);
    NextRowPlace(before, rows, snapshot, so, row);
    assert (rows + [row])[..|rows|] == rows;
    assert RowIds(rows + [row]) == RowIds(rows) + [row.id];
    forall k | 0 <= k < |rows| ensures rows[k].id != row.id {
      assert RowIds(rows + [row])[k] == rows[k].id && RowIds(rows + [row])[|rows|] == row.id;
    }
    if row.id in known {
      var i := Find(before, row.id).value;
      assert Ids(after) == Ids(so);
      assert UnknownRows(known, rows + [row]) == UnknownRows(known, rows);
      forall j | 0 <= j < |before| && before[j].id == row.id ensures j == i {
        assert Ids(before)[j] == Ids(before)[i];
      }
    } else {
      assert TabOf(so, row.id) == None;
      assert Ids(after) == Ids(so) + [row.id];
      assert UnknownRows(known, rows + [row]) == UnknownRows(known, rows) + [row];
    }
  }

  // Known sessions keep their place, id and tab; unknown rows are added once each in row order;
  // ids stay unique; everything a row describes is reclassified from it.
  lemma {:induction false} MergeSettles(before: seq<Session>, rows: seq<Row>, snapshot: Snapshot)
    requires Distinct(Ids(before)) && Distinct(RowIds(rows))
    ensures Settled(before, rows, snapshot, Merge(before, rows, snapshot))
  {
    if rows != [] {
      var init, row := rows[..|rows| - 1], rows[|rows| - 1];
      assert rows == init + [row];
      assert RowIds(init) == RowIds(rows)[..|init|];
      MergeSettles(before, init, snapshot);
      MergeRowSettles(before, init, snapshot, Merge(before, init, snapshot), row);
    }
  }

  lemma {:induction false} DeadQueueMembers(sessions: seq<Session>, rows: seq<Row>, snapshot: Snapshot, id: string)
    ensures id in DeadQueue(sessions, rows, snapshot)
            <==> TabOf(sessions, id).None? && snapshot.Some?
                 && exists row :: row in rows && row.id == id && !row.ended && row.childPid.Some? && row.childPid.value !in snapshot.value
  {
    if rows != [] {
      var init, row := rows[..|rows| - 1], rows[|rows| - 1];
      DeadQueueMembers(sessions, init, snapshot, id);
      assert rows == init + [row];
    }
  }

  // A process is known to run: its pid is in the snapshot, or a managed session without a pid has not ended.
  predicate Runs(row: Row, snapshot: Snapshot) {
    if row.childPid.Some? then snapshot.Some? && row.childPid.value in snapshot.value
    else !row.ended && (row.sessionLabel == Some("hand") || row.sessionLabel == Some("head") || row.sessionLabel == Some("merger"))
  }

  // After a merge the session of a row is history if the row has ended, active if it has not and a tab or
  // a process is there, and stale if neither is.
  predicate ShownAs(s: Session, row: Row, snapshot: Snapshot) {
    && s.id == row.id
    && s.active == (!row.ended && (s.tabId.Some? || Runs(row, snapshot)))
    && s.stale == (!row.ended && s.tabId.None? && !Runs(row, snapshot))
  }

  lemma MergeShows(before: seq<Session>, rows: seq<Row>, snapshot: Snapshot, k: nat) returns (i: nat)
    requires Distinct(Ids(before)) && Distinct(RowIds(rows)) && k < |rows|
    ensures var after := Merge(before, rows, snapshot);
      && i < |after| && ShownAs(after[i], rows[k], snapshot)
      && forall j :: 0 <= j < |after| && after[j].id == rows[k].id ==> j == i
  {
    MergeSettles(before, rows, snapshot);
    var after := Merge(before, rows, snapshot);
    var known := KnownIds(before);
    UnknownRowsMembers(known, rows);
    if rows[k].id in known {
      i := Find(before, rows[k].id).value;
      assert after[i] == Described(rows[k], before[i].tabId, snapshot);
    } else {
      assert rows[k] in UnknownRows(known, rows);
      var m :| 0 <= m < |UnknownRows(known, rows)| && UnknownRows(known, rows)[m] == rows[k];
      i := |before| + m;
      assert after[i] == Described(rows[k], None, snapshot);
    }
    OnePlace(after, i);
  }

  lemma OnePlace(sessions: seq<Session>, i: nat)
    requires i < |sessions| && Distinct(Ids(sessions))
    ensures forall j :: 0 <= j < |sessions| && sessions[j].id == sessions[i].id ==> j == i
  {
    forall j | 0 <= j < |sessions| && sessions[j].id == sessions[i].id ensures j == i {
      assert Ids(sessions)[j] == Ids(sessions)[i];
    }
  }

  // What the row at `k` adds to the merge and to the queue.
  lemma RowByRow(before: seq<Session>, rows: seq<Row>, snapshot: Snapshot, k: nat)
    requires Distinct(Ids(before)) && Distinct(RowIds(rows)) && k < |rows|
    ensures var so := Merge(before, rows[..k], snapshot);
      && Merge(before, rows[..k + 1], snapshot) == MergeRow(so, KnownIds(before), rows[k], snapshot)
      && DeadQueue(before, rows[..k + 1], snapshot) ==
           DeadQueue(before, rows[..k], snapshot)
           + if ProcessGone(rows[k], snapshot) && TabOf(so, rows[k].id).None? then [rows[k].id] else []
  {
    var so := Merge(before, rows[..k], snapshot);
    assert rows[..k + 1] == rows[..k] + [rows[k]] && rows[..k + 1][..k] == rows[..k];
    assert RowIds(rows[..k]) == RowIds(rows)[..k];
    assert RowIds(rows[..k] + [rows[k]]) == RowIds(rows)[..k + 1];
    MergeSettles(before, rows[..k], snapshot);
    NextRowPlace(before, rows[..k], snapshot, so, rows[k]);
    SameTab(before, rows[..k], snapshot, so, rows[k].id);
  }

  lemma SameTab(before: seq<Session>, rows: seq<Row>, snapshot: Snapshot, so: seq<Session>, id: string)
    requires Settled(before, rows, snapshot, so) && Find(so, id) == Find(before, id)
    ensures TabOf(so, id) == TabOf(before, id)
  {
  }

  class Workshop {
    var agentSessions: seq<Session>

    // Returns the ids handed to the reconciliation task.
    method AgentSessionsLoaded(persisted: seq<Row>, snapshot: Snapshot) returns (dead: seq<string>)
      requires Distinct(Ids(agentSessions)) && Distinct(RowIds(persisted))
      modifies this
      ensures agentSessions == Merge(old(agentSessions), persisted, snapshot)
      ensures Settled(old(agentSessions), persisted, snapshot, agentSessions)
      ensures dead == DeadQueue(old(agentSessions), persisted, snapshot)
    {
      var knownIds := KnownIds(agentSessions);
      ghost var before := agentSessions;
      dead := [];
      for k := 0 to |persisted|
        invariant agentSessions == Merge(before, persisted[..k], snapshot)
        invariant dead == DeadQueue(before, persisted[..k], snapshot)
      {
        var p := persisted[k];
        RowByRow(before, persisted, snapshot, k);
        var existingTabId := TabOf(agentSessions, p.id);
        if ProcessGone(p, snapshot) && existingTabId.None? {
          dead := dead + [p.id];
        }
        var described := Described(p, existingTabId, snapshot);
        if p.id in knownIds {
          var at := Find(agentSessions, p.id);
          if at.Some? {
            agentSessions := agentSessions[at.value := described];
          }
        } else {
          agentSessions := agentSessions + [described];
        }
      }
      assert persisted[..|persisted|] == persisted;
      MergeSettles(before, persisted, snapshot);
    }
  }

  // ---- Reconciliation --------------------------------------------------------------------------

  datatype Assignment = Assignment(sessionId: string, sparkId: string, status: string)

  class Database {
    var sessions: seq<Row>
    var assignments: seq<Assignment>

    method EndSession(id: string)
      modifies this`sessions
      ensures |sessions| == |old(sessions)|
      ensures forall i :: 0 <= i < |sessions| ==>
        sessions[i] == old(sessions)[i].(ended := old(sessions)[i].ended || old(sessions)[i].id == id)
    {
      sessions := seq(|sessions|, i requires 0 <= i < |sessions| reads this =>
        if sessions[i].id == id then sessions[i].(ended := true) else sessions[i]);
    }

    method Abandon(sessionId: string, sparkId: string)
      modifies this`assignments
      ensures |assignments| == |old(assignments)|
      ensures forall i :: 0 <= i < |assignments| ==>
        assignments[i] == AbandonedIf(old(assignments)[i], old(assignments)[i].sessionId == sessionId && old(assignments)[i].sparkId == sparkId)
    {
      assignments := seq(|assignments|, i requires 0 <= i < |assignments| reads this =>
        AbandonedIf(assignments[i], assignments[i].sessionId == sessionId && assignments[i].sparkId == sparkId));
    }

    method AbandonAllOf(sessionId: string)
      modifies this`assignments
      ensures |assignments| == |old(assignments)|
      ensures forall i :: 0 <= i < |assignments| ==>
        assignments[i] == AbandonedIf(old(assignments)[i], old(assignments)[i].sessionId == sessionId)
    {
      var listed := assignments;    // `list_for_session`, before any of them changes
      ghost var done: set<string> := {};
      for k := 0 to |listed|
        invariant |assignments| == |listed|
        invariant forall i :: 0 <= i < |listed| ==>
          assignments[i] == AbandonedIf(listed[i], listed[i].sessionId == sessionId && listed[i].sparkId in done)
        invariant forall i :: 0 <= i < k && listed[i].sessionId == sessionId && listed[i].status == "active" ==>
          listed[i].sparkId in done
      {
        var a := listed[k];
        if a.sessionId == sessionId && a.status == "active" {
          Abandon(sessionId, a.sparkId);
          done := done + {a.sparkId};
        }
      }
    }

    // Ends each queued session and abandons its active assignments; every other row is untouched.
    method ReconcileDeadSessions(sessionIds: seq<string>) returns (reconciled: seq<string>)
      modifies this
      ensures reconciled == sessionIds
      ensures |sessions| == |old(sessions)| && |assignments| == |old(assignments)|
      ensures forall i :: 0 <= i < |sessions| ==>
        sessions[i] == old(sessions)[i].(ended := old(sessions)[i].ended || old(sessions)[i].id in sessionIds)
      ensures sessions == Reconciled(old(sessions), sessionIds)
      ensures forall i :: 0 <= i < |assignments| ==>
        var a := old(assignments)[i];
        assignments[i] == Assignment(a.sessionId, a.sparkId,
                                     if a.sessionId in sessionIds && a.status == "active" then "abandoned" else a.status)
    {
      reconciled := [];
      for k := 0 to |sessionIds|
        invariant reconciled == sessionIds[..k]
        invariant |sessions| == |old(sessions)| && |assignments| == |old(assignments)|
        invariant forall i :: 0 <= i < |sessions| ==>
          sessions[i] == old(sessions)[i].(ended := old(sessions)[i].ended || old(sessions)[i].id in sessionIds[..k])
        invariant forall i :: 0 <= i < |assignments| ==>
          assignments[i] == AbandonedIf(old(assignments)[i], old(assignments)[i].sessionId in sessionIds[..k])
      {
        var id := sessionIds[k];
        assert forall x :: x in sessionIds[..k + 1] <==> x in sessionIds[..k] || x == id;
        EndSession(id);
        AbandonAllOf(id);
        reconciled := reconciled + [id];
      }
      assert sessionIds[..|sessionIds|] == sessionIds;
    }
  }

  function AbandonedIf(a: Assignment, c: bool): Assignment {
    if c && a.status == "active" then a.(status := "abandoned") else a
  }

  function Reconciled(rows: seq<Row>, ids: seq<string>): seq<Row> {
    seq(|rows|, i requires 0 <= i < |rows| => rows[i].(ended := rows[i].ended || rows[i].id in ids))
  }

  // After a reconciled poll no later load, whatever the tabs and processes are by then, queues
  // any of the same sessions again; a session left out keeps its chance.
  lemma NotQueuedAgain(sessions: seq<Session>, rows: seq<Row>, snapshot: Snapshot, later: seq<Session>, laterSnapshot: Snapshot, id: string)
    ensures var queue := DeadQueue(sessions, rows, snapshot);
      id in DeadQueue(later, Reconciled(rows, queue), laterSnapshot)
      <==> id !in queue && id in DeadQueue(later, rows, laterSnapshot)
  {
    var queue := DeadQueue(sessions, rows, snapshot);
    var rows' := Reconciled(rows, queue);
    DeadQueueMembers(later, rows, laterSnapshot, id);
    DeadQueueMembers(later, rows', laterSnapshot, id);
    if id !in queue {
      forall row: Row | row.id == id ensures row in rows' <==> row in rows {
        if row in rows { var i :| 0 <= i < |rows| && rows[i] == row; assert rows'[i] == row; }
        if row in rows' { var i :| 0 <= i < |rows'| && rows'[i] == row; assert rows[i] == row; }
      }
    } else {
      forall row | row in rows' && row.id == id ensures row.ended {
        var i :| 0 <= i < |rows'| && rows'[i] == row;
      }
    }
  }
}
