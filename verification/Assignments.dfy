// src/cli.rs: claiming, releasing and closing assignments, where a close demands a
// chat-of-record post made since the claim.
module Assignments {
  import opened Prelude

  datatype Status = Active | Completed | Abandoned

  // A row of `assignments`. `postsAtClaim` is history, not a column: how many posts there were
  // when the claim was made.
  datatype Row = Row(sessionId: string, sparkId: string, owner: bool, status: Status, assignedAt: nat, postsAtClaim: nat)

  // A row of `irc_messages`; `epicId` is the spark the post is tagged with.
  datatype Post = Post(sender: Option<string>, epicId: string, at: nat)

  // A `parent_child` row of `bonds`.
  datatype Bond = Bond(parent: string, child: string)

  datatype State = State(rows: seq<Row>, posts: seq<Post>, bonds: seq<Bond>, clock: nat)

  const EMPTY := State([], [], [], 0)

  predicate Mine(r: Row, sessionId: string, sparkId: string) {
    r.sessionId == sessionId && r.sparkId == sparkId && r.status == Active
  }

  // ---- The close gate ----------------------------------------------------------------------------

  // `ORDER BY assigned_at DESC LIMIT 1` over the active rows of the pair.
  function LatestClaim(rows: seq<Row>, sessionId: string, sparkId: string): Option<nat> {
    if rows == [] then None
    else
      var rest := LatestClaim(rows[1..], sessionId, sparkId);
      if !Mine(rows[0], sessionId, sparkId) then rest
      else match rest
        case None => Some(rows[0].assignedAt)
        case Some(at) => Some(if rows[0].assignedAt < at then at else rows[0].assignedAt)
  }

  // The `from_id` of the first bond that makes the spark a child.
  function ParentOf(bonds: seq<Bond>, sparkId: string): Option<string> {
    if bonds == [] then None
    else if bonds[0].child == sparkId then Some(bonds[0].parent)
    else ParentOf(bonds[1..], sparkId)
  }

  // A post by that session about that spark or its parent.
  predicate Matches(p: Post, sessionId: string, sparkId: string, parent: Option<string>) {
    p.sender == Some(sessionId) && (p.epicId == sparkId || Some(p.epicId) == parent)
  }

  predicate Counts(p: Post, sessionId: string, sparkId: string, parent: Option<string>, since: nat) {
    Matches(p, sessionId, sparkId, parent) && p.at >= since
  }

  function CountPosts(posts: seq<Post>, sessionId: string, sparkId: string, parent: Option<string>, since: nat): nat {
    if posts == [] then 0
    else CountPosts(posts[1..], sessionId, sparkId, parent, since)
         + if Counts(posts[0], sessionId, sparkId, parent, since) then 1 else 0
  }

  lemma {:induction false} LatestClaimIsLatest(rows: seq<Row>, sessionId: string, sparkId: string)
    ensures LatestClaim(rows, sessionId, sparkId).None? <==> forall r :: r in rows ==> !Mine(r, sessionId, sparkId)
    ensures LatestClaim(rows, sessionId, sparkId).Some? ==>
      && (exists r :: r in rows && Mine(r, sessionId, sparkId) && r.assignedAt == LatestClaim(rows, sessionId, sparkId).value)
      && (forall r :: r in rows && Mine(r, sessionId, sparkId) ==> r.assignedAt <= LatestClaim(rows, sessionId, sparkId).value)
  {
    if rows != [] {
      LatestClaimIsLatest(rows[1..], sessionId, sparkId);
      assert forall r :: r in rows <==> r == rows[0] || r in rows[1..];
    }
  }

  lemma {:induction false} CountPositive(posts: seq<Post>, sessionId: string, sparkId: string, parent: Option<string>, since: nat)
    ensures CountPosts(posts, sessionId, sparkId, parent, since) > 0
            <==> exists i :: 0 <= i < |posts| && Counts(posts[i], sessionId, sparkId, parent, since)
  {
    if posts != [] {
      CountPositive(posts[1..], sessionId, sparkId, parent, since);
      if i :| 0 <= i < |posts| - 1 && Counts(posts[1..][i], sessionId, sparkId, parent, since) {
        assert Counts(posts[i + 1], sessionId, sparkId, parent, since);
      }
      if i :| 0 <= i < |posts| && Counts(posts[i], sessionId, sparkId, parent, since) {
        assert i > 0 ==> Counts(posts[1..][i - 1], sessionId, sparkId, parent, since);
      }
    }
  }

  datatype CloseResult = Closed(posts: nat, since: nat) | NoActiveAssignment | Refused(since: nat)

  function CloseOutcome(st: State, sessionId: string, sparkId: string): CloseResult {
    match LatestClaim(st.rows, sessionId, sparkId)
    case None => NoActiveAssignment
    case Some(since) =>
      var n := CountPosts(st.posts, sessionId, sparkId, ParentOf(st.bonds, sparkId), since);
      if n == 0 then Refused(since) else Closed(n, since)
  }

  function SetStatus(rows: seq<Row>, sessionId: string, sparkId: string, status: Status): (r: seq<Row>)
    ensures |r| == |rows|
    ensures forall i :: 0 <= i < |rows| ==>
      r[i] == if Mine(rows[i], sessionId, sparkId) then rows[i].(status := status) else rows[i]
  {
    seq(|rows|, i requires 0 <= i < |rows| =>
      if Mine(rows[i], sessionId, sparkId) then rows[i].(status := status) else rows[i])
  }

  // Some post unlocks a close of this pair for a claim made at `since`.
  ghost predicate Unlocked(st: State, sessionId: string, sparkId: string, since: nat, from: nat) {
    exists i :: from <= i < |st.posts| && Counts(st.posts[i], sessionId, sparkId, ParentOf(st.bonds, sparkId), since)
  }

  // The gate opens exactly for a session that holds the claim and has posted, about the spark or
  // in its parent's channel, at or after every active claim of its own on it.
  lemma GateExact(st: State, sessionId: string, sparkId: string)
    ensures CloseOutcome(st, sessionId, sparkId).Closed? <==>
      && (exists r :: r in st.rows && Mine(r, sessionId, sparkId))
      && (exists i :: 0 <= i < |st.posts| && forall r :: r in st.rows && Mine(r, sessionId, sparkId) ==>
            Counts(st.posts[i], sessionId, sparkId, ParentOf(st.bonds, sparkId), r.assignedAt))
  {
    LatestClaimIsLatest(st.rows, sessionId, sparkId);
    var latest := LatestClaim(st.rows, sessionId, sparkId);
    if latest.Some? {
      CountPositive(st.posts, sessionId, sparkId, ParentOf(st.bonds, sparkId), latest.value);
    }
  }

  // Where the posts since then stand, from position k on: by that session, about that spark or its parent.
  ghost function PostsFrom(posts: seq<Post>, k: nat, sessionId: string, sparkId: string, parent: Option<string>, since: nat): set<nat> {
    set i: nat | k <= i < |posts| && Counts(posts[i], sessionId, sparkId, parent, since)
  }

  lemma {:induction false} CountExactly(posts: seq<Post>, k: nat, sessionId: string, sparkId: string, parent: Option<string>, since: nat)
    requires k <= |posts|
    ensures CountPosts(posts[k..], sessionId, sparkId, parent, since) == |PostsFrom(posts, k, sessionId, sparkId, parent, since)|
    decreases |posts| - k
  {
    var here := PostsFrom(posts, k, sessionId, sparkId, parent, since);
    if k == |posts| {
      assert here == {};
    } else {
      CountExactly(posts, k + 1, sessionId, sparkId, parent, since);
      assert posts[k..][1..] == posts[k + 1..] && posts[k..][0] == posts[k];
      var rest := PostsFrom(posts, k + 1, sessionId, sparkId, parent, since);
      if Counts(posts[k], sessionId, sparkId, parent, since) {
        assert here == rest + {k};
      } else {
        assert here == rest;
      }
    }
  }

  ghost predicate IsLatestClaim(rows: seq<Row>, sessionId: string, sparkId: string, since: nat) {
    && (exists r :: r in rows && Mine(r, sessionId, sparkId) && r.assignedAt == since)
    && forall r :: r in rows && Mine(r, sessionId, sparkId) ==> r.assignedAt <= since
  }

  // The gate answers with the latest active claim, and with the number of posts since then.
  lemma GateReports(st: State, sessionId: string, sparkId: string)
    ensures var outcome := CloseOutcome(st, sessionId, sparkId);
      && (outcome.NoActiveAssignment? <==> forall r :: r in st.rows ==> !Mine(r, sessionId, sparkId))
      && (!outcome.NoActiveAssignment? ==> IsLatestClaim(st.rows, sessionId, sparkId, outcome.since))
      && (outcome.Refused? ==>
            PostsFrom(st.posts, 0, sessionId, sparkId, ParentOf(st.bonds, sparkId), outcome.since) == {})
      && (outcome.Closed? ==>
            outcome.posts == |PostsFrom(st.posts, 0, sessionId, sparkId, ParentOf(st.bonds, sparkId), outcome.since)| > 0)
  {
    LatestClaimIsLatest(st.rows, sessionId, sparkId);
    var latest := LatestClaim(st.rows, sessionId, sparkId);
    if latest.Some? {
      assert st.posts[0..] == st.posts;
      CountExactly(st.posts, 0, sessionId, sparkId, ParentOf(st.bonds, sparkId), latest.value);
    }
  }

  // ---- Runs --------------------------------------------------------------------------------------

  datatype Action =
    | Assign(sessionId: string, sparkId: string, owner: bool)    // `assign claim` is the owner form
    | Release(sessionId: string, sparkId: string)
    | Close(sessionId: string, sparkId: string)
    | Say(sender: Option<string>, epicId: string)
    | AddBond(parent: string, child: string)

  datatype Event = Event(at: nat, action: Action)

  predicate OwnerHeld(rows: seq<Row>, sparkId: string) {
    exists i :: 0 <= i < |rows| && rows[i].sparkId == sparkId && rows[i].owner && rows[i].status == Active
  }

  function Step(st: State, e: Event): State {
    var now := st.(clock := e.at);
    match e.action
    case Assign(sessionId, sparkId, owner) =>
      if owner && OwnerHeld(st.rows, sparkId) then now
      else now.(rows := st.rows + [Row(sessionId, sparkId, owner, Active, e.at, |st.posts|)])
    case Release(sessionId, sparkId) => now.(rows := SetStatus(st.rows, sessionId, sparkId, Abandoned))
    case Close(sessionId, sparkId) =>
      if CloseOutcome(st, sessionId, sparkId).Closed?
      then now.(rows := SetStatus(st.rows, sessionId, sparkId, Completed)) else now
    case Say(sender, epicId) => now.(posts := st.posts + [Post(sender, epicId, e.at)])
    case AddBond(parent, child) => now.(bonds := st.bonds + [Bond(parent, child)])
  }

  function Run(events: seq<Event>): State {
    if events == [] then EMPTY else Step(Run(events[..|events| - 1]), events[|events| - 1])
  }

  ghost predicate Monotone(events: seq<Event>) {
    forall i, j :: 0 <= i < j < |events| ==> events[i].at <= events[j].at
  }

  ghost predicate RowInv(st: State, r: Row) {
    && r.assignedAt <= st.clock
    && r.postsAtClaim <= |st.posts|
    && (r.status == Completed ==> Unlocked(st, r.sessionId, r.sparkId, r.assignedAt, 0))
  }

  ghost predicate OneOwner(rows: seq<Row>) {
    forall i, j :: 0 <= i < j < |rows| && rows[i].sparkId == rows[j].sparkId && rows[i].owner && rows[j].owner ==>
      rows[i].status != Active || rows[j].status != Active
  }

  ghost predicate Inv(st: State) {
    && (forall i :: 0 <= i < |st.rows| ==> RowInv(st, st.rows[i]))
    && OneOwner(st.rows)
  }

  lemma {:induction false} ParentStays(bonds: seq<Bond>, b: Bond, sparkId: string)
    ensures ParentOf(bonds, sparkId).Some? ==> ParentOf(bonds + [b], sparkId) == ParentOf(bonds, sparkId)
  {
    if bonds != [] {
      assert (bonds + [b])[1..] == bonds[1..] + [b];
      if bonds[0].child != sparkId { ParentStays(bonds[1..], b, sparkId); }
    }
  }

  // What unlocked a close keeps doing so: posts and bonds are only appended.
  lemma UnlockedStays(st: State, e: Event, sessionId: string, sparkId: string, since: nat, from: nat)
    ensures Unlocked(st, sessionId, sparkId, since, from) ==> Unlocked(Step(st, e), sessionId, sparkId, since, from)
  {
    var st' := Step(st, e);
    if e.action.AddBond? { ParentStays(st.bonds, Bond(e.action.parent, e.action.child), sparkId); }
    if i :| from <= i < |st.posts| && Counts(st.posts[i], sessionId, sparkId, ParentOf(st.bonds, sparkId), since) {
      assert st'.posts[i] == st.posts[i];
      assert Counts(st'.posts[i], sessionId, sparkId, ParentOf(st'.bonds, sparkId), since);
    }
  }

  // A close that goes through has a post for every row it completes.
  lemma CloseUnlocksRow(st: State, sessionId: string, sparkId: string, i: nat)
    requires CloseOutcome(st, sessionId, sparkId).Closed?
    requires i < |st.rows| && Mine(st.rows[i], sessionId, sparkId)
    ensures Unlocked(st, sessionId, sparkId, st.rows[i].assignedAt, 0)
  {
    LatestClaimIsLatest(st.rows, sessionId, sparkId);
    var since := LatestClaim(st.rows, sessionId, sparkId).value;
    var parent := ParentOf(st.bonds, sparkId);
    CountPositive(st.posts, sessionId, sparkId, parent, since);
    var k :| 0 <= k < |st.posts| && Counts(st.posts[k], sessionId, sparkId, parent, since);
    assert st.rows[i] in st.rows;
    assert Counts(st.posts[k], sessionId, sparkId, parent, st.rows[i].assignedAt);
  }

  lemma StepKeepsRow(st: State, e: Event, i: nat)
    requires Inv(st) && st.clock <= e.at && i < |Step(st, e).rows|
    ensures RowInv(Step(st, e), Step(st, e).rows[i])
  {
    var st' := Step(st, e);
    var r := st'.rows[i];
    UnlockedStays(st, e, r.sessionId, r.sparkId, r.assignedAt, 0);
    if i < |st.rows| {
      assert RowInv(st, st.rows[i]);
      if e.action.Close? && CloseOutcome(st, e.action.sessionId, e.action.sparkId).Closed?
         && Mine(st.rows[i], e.action.sessionId, e.action.sparkId) {
        CloseUnlocksRow(st, e.action.sessionId, e.action.sparkId, i);
      }
    }
  }

  // In every run with a clock that never goes back, each assignment completed by a close has a
  // post of its session, about the spark or its parent, made at or after its own claim; and no
  // spark ever has two active owners.
  lemma {:induction false} CompletedWasPosted(events: seq<Event>)
    requires Monotone(events)
    ensures Inv(Run(events))
    ensures events != [] ==> Run(events).clock == events[|events| - 1].at
  {
    if events != [] {
      var init, e := events[..|events| - 1], events[|events| - 1];
      CompletedWasPosted(init);
      var st := Run(init);
      assert st.clock <= e.at;
      forall i | 0 <= i < |Step(st, e).rows| ensures RowInv(Step(st, e), Step(st, e).rows[i]) {
        StepKeepsRow(st, e, i);
      }
    }
  }

  // ---- What the other steps do ---------------------------------------------------------------------

  // A claim is refused exactly to an owner of a spark that has an active owner; else it adds an active row.
  lemma AssignExactly(st: State, at: nat, sessionId: string, sparkId: string, owner: bool)
    ensures var st' := Step(st, Event(at, Assign(sessionId, sparkId, owner)));
      var held := exists i :: 0 <= i < |st.rows| && st.rows[i].sparkId == sparkId && st.rows[i].owner && st.rows[i].status == Active;
      && st'.posts == st.posts && st'.bonds == st.bonds && st'.clock == at
      && st'.rows == if owner && held then st.rows else st.rows + [Row(sessionId, sparkId, owner, Active, at, |st.posts|)]
  {
  }

  // A release abandons the session's active rows on that spark and no other.
  lemma ReleaseExactly(st: State, at: nat, sessionId: string, sparkId: string)
    ensures var st' := Step(st, Event(at, Release(sessionId, sparkId)));
      && st'.posts == st.posts && st'.bonds == st.bonds && st'.clock == at && |st'.rows| == |st.rows|
      && forall i :: 0 <= i < |st.rows| ==>
           st'.rows[i] == if st.rows[i].sessionId == sessionId && st.rows[i].sparkId == sparkId && st.rows[i].status == Active
                          then st.rows[i].(status := Abandoned) else st.rows[i]
  {
  }

  // A close that goes through completes just those rows, and one that does not changes no row.
  lemma CloseExactly(st: State, at: nat, sessionId: string, sparkId: string)
    ensures var st' := Step(st, Event(at, Close(sessionId, sparkId)));
      && st'.posts == st.posts && st'.bonds == st.bonds && st'.clock == at && |st'.rows| == |st.rows|
      && forall i :: 0 <= i < |st.rows| ==>
           st'.rows[i] == if CloseOutcome(st, sessionId, sparkId).Closed?
                             && st.rows[i].sessionId == sessionId && st.rows[i].sparkId == sparkId && st.rows[i].status == Active
                          then st.rows[i].(status := Completed) else st.rows[i]
  {
  }

  lemma PostAndBondExactly(st: State, at: nat, sender: Option<string>, epicId: string, parent: string, child: string)
    ensures Step(st, Event(at, Say(sender, epicId))) == st.(posts := st.posts + [Post(sender, epicId, at)], clock := at)
    ensures Step(st, Event(at, AddBond(parent, child))) == st.(bonds := st.bonds + [Bond(parent, child)], clock := at)
  {
  }

  // ---- The post belongs to this claim --------------------------------------------------------------

  // Posts from before a claim are no later than the claim.
  ghost predicate Ordered(st: State) {
    && (forall i :: 0 <= i < |st.posts| ==> st.posts[i].at <= st.clock)
    && (forall i, k :: 0 <= i < |st.rows| && 0 <= k < st.rows[i].postsAtClaim && k < |st.posts| ==>
          st.posts[k].at <= st.rows[i].assignedAt)
    && (forall i :: 0 <= i < |st.rows| ==> st.rows[i].postsAtClaim <= |st.posts|)
  }

  lemma StepKeepsOrder(st: State, e: Event)
    requires Ordered(st) && st.clock <= e.at
    ensures Ordered(Step(st, e)) && Step(st, e).clock == e.at
  {
  }

  lemma {:induction false} RunsAreOrdered(events: seq<Event>)
    requires Monotone(events)
    ensures Ordered(Run(events))
    ensures Run(events).clock == if events == [] then 0 else events[|events| - 1].at
  {
    if events != [] {
      RunsAreOrdered(events[..|events| - 1]);
      StepKeepsOrder(Run(events[..|events| - 1]), events[|events| - 1]);
    }
  }

  // Post `k` matches the row, is older than its claim, and carries the very instant of the claim.
  ghost predicate OldAtClaim(st: State, r: Row, k: nat) {
    k < r.postsAtClaim && k < |st.posts|
    && Matches(st.posts[k], r.sessionId, r.sparkId, ParentOf(st.bonds, r.sparkId)) && st.posts[k].at == r.assignedAt
  }

  // With a clock that never goes back a post from before a claim counts for it exactly when it matches
  // and carries the instant of the claim.
  lemma OldPostCountsExactly(events: seq<Event>, i: nat, k: nat)
    requires Monotone(events) && i < |Run(events).rows| && k < Run(events).rows[i].postsAtClaim
    ensures var st := Run(events); var r := st.rows[i];
      && k < |st.posts|
      && (Counts(st.posts[k], r.sessionId, r.sparkId, ParentOf(st.bonds, r.sparkId), r.assignedAt) <==> OldAtClaim(st, r, k))
  {
    RunsAreOrdered(events);
  }

  // So each completed assignment was unlocked by a post made after its claim, or else by an older one
  // that carries the very instant of the claim.
  lemma OldPostsNeverUnlock(events: seq<Event>, i: nat)
    requires Monotone(events) && i < |Run(events).rows| && Run(events).rows[i].status == Completed
    ensures var st := Run(events); var r := st.rows[i];
      Unlocked(st, r.sessionId, r.sparkId, r.assignedAt, r.postsAtClaim) || exists k :: OldAtClaim(st, r, k)
  {
    CompletedWasPosted(events);
    var st := Run(events);
    var r := st.rows[i];
    assert RowInv(st, r);
    var k :| 0 <= k < |st.posts| && Counts(st.posts[k], r.sessionId, r.sparkId, ParentOf(st.bonds, r.sparkId), r.assignedAt);
    if k < r.postsAtClaim { OldPostCountsExactly(events, i, k); }
  }

  // And when nothing matching was posted after the latest claim, a close goes through if and only if
  // such an older post exists.
  lemma OldPostUnlocksExactly(events: seq<Event>, i: nat)
    requires Monotone(events) && i < |Run(events).rows|
    requires var st := Run(events); var r := st.rows[i];
      && LatestClaim(st.rows, r.sessionId, r.sparkId) == Some(r.assignedAt)
      && !Unlocked(st, r.sessionId, r.sparkId, r.assignedAt, r.postsAtClaim)
    ensures var st := Run(events); var r := st.rows[i];
      CloseOutcome(st, r.sessionId, r.sparkId).Closed? <==> exists k :: OldAtClaim(st, r, k)
  {
    var st := Run(events);
    var r := st.rows[i];
    var parent := ParentOf(st.bonds, r.sparkId);
    CountPositive(st.posts, r.sessionId, r.sparkId, parent, r.assignedAt);
    if k :| 0 <= k < |st.posts| && Counts(st.posts[k], r.sessionId, r.sparkId, parent, r.assignedAt) {
      assert k < r.postsAtClaim;
      OldPostCountsExactly(events, i, k);
    }
    if k :| OldAtClaim(st, r, k) {
      OldPostCountsExactly(events, i, k);
    }
  }

  // Two events in the same instant are enough to let a post from before the claim through.
  lemma SameInstantUnlocks()
    ensures var st := Run([Event(5, Say(Some("h"), "s")), Event(5, Assign("h", "s", true)), Event(5, Close("h", "s"))]);
      && |st.rows| == 1 && st.rows[0].status == Completed
      && !Unlocked(st, "h", "s", st.rows[0].assignedAt, st.rows[0].postsAtClaim)
  {
    ThreeSteps(Event(5, Say(Some("h"), "s")), Event(5, Assign("h", "s", true)), Event(5, Close("h", "s")));
    var st1 := Step(EMPTY, Event(5, Say(Some("h"), "s")));
    assert st1.posts == [Post(Some("h"), "s", 5)];
    var st2 := Step(st1, Event(5, Assign("h", "s", true)));
    assert st2.rows == [Row("h", "s", true, Active, 5, 1)];
    assert LatestClaim(st2.rows[1..], "h", "s") == None;
  }

  // A post in the parent's channel unlocks a close of a spark it does not mention.
  lemma ParentPostUnlocks()
    ensures var st := Run([Event(1, AddBond("epic", "s")), Event(2, Assign("h", "s", true)),
                           Event(3, Say(Some("h"), "epic")), Event(4, Close("h", "s"))]);
      && |st.rows| == 1 && st.rows[0].status == Completed
      && forall i :: 0 <= i < |st.posts| ==> st.posts[i].epicId != "s"
  {
    var e1, e2, e3, e4 := Event(1, AddBond("epic", "s")), Event(2, Assign("h", "s", true)),
                          Event(3, Say(Some("h"), "epic")), Event(4, Close("h", "s"));
    assert [e1, e2, e3, e4][..3] == [e1, e2, e3];
    ThreeSteps(e1, e2, e3);
    var st1 := Step(EMPTY, e1);
    assert st1.bonds == [Bond("epic", "s")];
    var st2 := Step(st1, e2);
    assert st2.rows == [Row("h", "s", true, Active, 2, 0)];
    var st3 := Step(st2, e3);
    assert st3.posts == [Post(Some("h"), "epic", 3)];
    assert LatestClaim(st3.rows[1..], "h", "s") == None;
    assert Run([e1, e2, e3, e4]) == Step(st3, e4);
  }

  lemma ThreeSteps(a: Event, b: Event, c: Event)
    ensures Run([a, b, c]) == Step(Step(Step(EMPTY, a), b), c)
  {
    assert [a, b, c][..2] == [a, b] && [a, b][..1] == [a] && [a][..0] == [];
    assert Run([a]) == Step(EMPTY, a);
    assert Run([a, b]) == Step(Step(EMPTY, a), b);
  }

  // ---- The command -------------------------------------------------------------------------------

  class Database {
    var rows: seq<Row>
    var posts: seq<Post>
    var bonds: seq<Bond>

    method AssignClose(sessionId: string, sparkId: string, now: nat) returns (result: CloseResult)
      modifies this`rows
      ensures result == old(CloseOutcome(State(rows, posts, bonds, now), sessionId, sparkId))
      ensures rows == old(Step(State(rows, posts, bonds, now), Event(now, Close(sessionId, sparkId)))).rows
      ensures !result.Closed? ==> rows == old(rows)
      ensures result.Closed? ==>
        forall i :: 0 <= i < |rows| && rows[i] != old(rows)[i] ==>
          rows[i].status == Completed && Unlocked(State(rows, posts, bonds, now), sessionId, sparkId, rows[i].assignedAt, 0)
    {
      ghost var st := State(rows, posts, bonds, now);
      var assignedAt := LatestClaim(rows, sessionId, sparkId);
      if assignedAt.None? {
        return NoActiveAssignment;
      }
      var count := CountPosts(posts, sessionId, sparkId, ParentOf(bonds, sparkId), assignedAt.value);
      if count == 0 {
        return Refused(assignedAt.value);
      }
      forall i | 0 <= i < |rows| && Mine(rows[i], sessionId, sparkId)
        ensures Unlocked(st, sessionId, sparkId, rows[i].assignedAt, 0)
      {
        CloseUnlocksRow(st, sessionId, sparkId, i);
      }
      rows := SetStatus(rows, sessionId, sparkId, Completed);
      result := Closed(count, assignedAt.value);
    }
  }
}
