// src/cli.rs, src/head/orchestrator.rs: the loop of `ryve head orchestrate`, which drops, polls and
// respawns a crew's Hands until every spark is done or the cycles run out, then spawns a Merger.
module Orchestrate {
  import opened Prelude

  // ---- What a cycle sees ---------------------------------------------------------------------------

  // `beat` is the heartbeat (or else the claim time) of the owner, None when it does not parse.
  datatype Owner = Owner(session: string, beat: Option<int>)

  // A spark as the workgraph shows it; `stuck` is the phase of its latest assignment.
  datatype View = Closed(reason: Option<string>) | Open(owner: Option<Owner>, stuck: bool)

  // The answers the environment gives in one cycle: the listing and the poll (None: the read failed),
  // and for each row of the report whether its release and its spawn succeed.
  datatype Cycle = Cycle(
    listing: Option<map<string, View>>,
    views: Option<map<string, View>>,
    now: int,
    abandons: nat -> bool,
    spawns: nat -> Option<string>)

  datatype MemberState =
    | Unassigned
    | Stalled(session: string)
    | Stuck(session: string)
    | Running(session: string)
    | Completed
    | ClosedOther(reason: string)

  datatype Member = Member(spark: string, state: MemberState)

  datatype Crew = Crew(sparkIds: seq<string>, owners: seq<string>)

  datatype Event =
    | Polled(cycle: nat, report: seq<Member>)
    | Released(spark: string, session: string)
    | Spawned(spark: string, session: string)
    | MergerSpawned(spark: string, session: string)

  datatype Config = Config(stallAfter: int, cap: nat, maxCycles: nat)

  datatype State = State(crew: Crew, counts: map<string, nat>, log: seq<Event>, alive: bool)

  function StateOf(v: View, now: int, stallAfter: int): MemberState {
    match v
    case Closed(None) => ClosedOther("closed")
    case Closed(Some(reason)) => if reason == "completed" then Completed else ClosedOther(reason)
    case Open(None, _) => Unassigned
    case Open(Some(owner), stuck) =>
      if stuck then Stuck(owner.session)
      else match owner.beat
        case None => Stalled(owner.session)
        case Some(t) => if now - t > stallAfter then Stalled(owner.session) else Running(owner.session)
  }

  predicate Done(s: MemberState) { s.Completed? || s.ClosedOther? }

  predicate Needy(s: MemberState) { s.Stalled? || s.Unassigned? }

  predicate AllDone(report: seq<Member>) {
    report != [] && forall i :: 0 <= i < |report| ==> Done(report[i].state)
  }

  predicate AnyNeedy(report: seq<Member>) {
    exists i :: 0 <= i < |report| && Needy(report[i].state)
  }

  // ---- The primitives ------------------------------------------------------------------------------

  predicate Dropped(v: View) { v.Closed? && v.reason != Some("completed") }

  function KeepFirst(crew: Crew, listing: map<string, View>, n: nat): (kept: Crew)
    requires n <= |crew.sparkIds| == |crew.owners|
    ensures |kept.sparkIds| == |kept.owners|
    ensures forall id :: id in kept.sparkIds <==>
              id in crew.sparkIds[..n] && !(id in listing && Dropped(listing[id]))
  {
    if n == 0 then Crew([], [])
    else
      var kept := KeepFirst(crew, listing, n - 1);
      var id := crew.sparkIds[n - 1];
      assert crew.sparkIds[..n] == crew.sparkIds[..n - 1] + [id];
      if id in listing && Dropped(listing[id]) then kept
      else Crew(kept.sparkIds + [id], kept.owners + [crew.owners[n - 1]])
  }

  // `drop_closed_siblings`: a listing that fails is only a warning, and unknown sparks are kept.
  function Drop(crew: Crew, listing: Option<map<string, View>>): Crew
    requires |crew.sparkIds| == |crew.owners|
  {
    if listing.None? then crew else KeepFirst(crew, listing.value, |crew.sparkIds|)
  }

  // `poll_crew`: fails when the read fails or a spark of the crew does not exist.
  function Poll(crew: Crew, c: Cycle, stallAfter: int): Option<seq<Member>> {
    if c.views.None? || exists i :: 0 <= i < |crew.sparkIds| && crew.sparkIds[i] !in c.views.value then None
    else Some(seq(|crew.sparkIds|, i requires 0 <= i < |crew.sparkIds| && crew.sparkIds[i] in c.views.value =>
                Member(crew.sparkIds[i], StateOf(c.views.value[crew.sparkIds[i]], c.now, stallAfter))))
  }

  function Count(counts: map<string, nat>, spark: string): nat {
    if spark in counts then counts[spark] else 0
  }

  function Position(ids: seq<string>, id: string): (i: nat)
    ensures i <= |ids| && (i < |ids| ==> ids[i] == id) && id !in ids[..i]
  {
    if ids == [] || ids[0] == id then 0
    else
      var i := Position(ids[1..], id) + 1;
      assert i <= |ids| ==> ids[..i] == [ids[0]] + ids[1..][..i - 1];
      i
  }

  function SetOwner(crew: Crew, spark: string, session: string): Crew {
    var i := Position(crew.sparkIds, spark);
    if i < |crew.sparkIds| && i < |crew.owners| then crew.(owners := crew.owners[i := session]) else crew
  }

  // One row of `reassign_stalled`; a failing release or spawn ends the process.
  function Respawn(s: State, m: Member, i: nat, c: Cycle, cap: nat): State {
    var n := Count(s.counts, m.spark);
    if !Needy(m.state) then s
    else if n >= cap then s.(counts := s.counts[m.spark := n])
    else if m.state.Stalled? && !c.abandons(i) then s.(alive := false)
    else
      var released := if m.state.Stalled? then [Released(m.spark, m.state.session)] else [];
      match c.spawns(i)
      case None => s.(log := s.log + released, alive := false)
      case Some(session) =>
        s.(crew := SetOwner(s.crew, m.spark, session),
           counts := s.counts[m.spark := n + 1],
           log := s.log + released + [Spawned(m.spark, session)])
  }

  // The first `n` rows of the report.
  function RespawnFirst(s: State, report: seq<Member>, n: nat, c: Cycle, cap: nat): State
    requires n <= |report|
  {
    if n == 0 then s
    else
      var t := RespawnFirst(s, report, n - 1, c, cap);
      if t.alive then Respawn(t, report[n - 1], n - 1, c, cap) else t
  }

  // ---- The loop ------------------------------------------------------------------------------------

  datatype Ending = Ending(state: State, cycles: nat, report: seq<Member>)

  function Limit(cfg: Config): nat { if cfg.maxCycles == 0 then 1 else cfg.maxCycles }

  function AfterPoll(s: State, k: nat, c: Cycle, cfg: Config): (t: State)
    requires |s.crew.sparkIds| == |s.crew.owners|
  {
    var crew := Drop(s.crew, c.listing);
    match Poll(crew, c, cfg.stallAfter)
    case None => s.(crew := crew, alive := false)
    case Some(report) => s.(crew := crew, log := s.log + [Polled(k, report)])
  }

  function ReportOf(s: State, c: Cycle, cfg: Config): seq<Member>
    requires |s.crew.sparkIds| == |s.crew.owners|
  {
    match Poll(Drop(s.crew, c.listing), c, cfg.stallAfter)
    case None => []
    case Some(report) => report
  }

  function Heal(s: State, report: seq<Member>, c: Cycle, cap: nat): (t: State)
    ensures |s.crew.sparkIds| == |s.crew.owners| ==> |t.crew.sparkIds| == |t.crew.owners|
  {
    if AnyNeedy(report) then
      HealKeepsShape(s, report, |report|, c, cap);
      RespawnFirst(s, report, |report|, c, cap)
    else s
  }

  lemma {:induction false} HealKeepsShape(s: State, report: seq<Member>, n: nat, c: Cycle, cap: nat)
    requires n <= |report|
    ensures RespawnFirst(s, report, n, c, cap).crew.sparkIds == s.crew.sparkIds
    ensures |RespawnFirst(s, report, n, c, cap).crew.owners| == |s.crew.owners|
  {
    if n > 0 { HealKeepsShape(s, report, n - 1, c, cap); }
  }

  function Run(s: State, k: nat, world: nat -> Cycle, cfg: Config): Ending
    requires |s.crew.sparkIds| == |s.crew.owners| && k < Limit(cfg)
    decreases Limit(cfg) - k
  {
    var polled := AfterPoll(s, k, world(k), cfg);
    var report := ReportOf(s, world(k), cfg);
    if !polled.alive || AllDone(report) then Ending(polled, k, report)
    else
      var healed := Heal(polled, report, world(k), cfg.cap);
      if !healed.alive || k + 1 >= cfg.maxCycles then Ending(healed, k + 1, report)
      else Run(healed, k + 1, world, cfg)
  }

  // `finalize_with_merger`, when the last report is all done and a merge spark was named.
  function Finish(e: Ending, mergeSpark: Option<string>, merger: Option<string>): State {
    if !e.state.alive || !AllDone(e.report) || mergeSpark.None? then e.state
    else match merger
      case None => e.state.(alive := false)
      case Some(session) => e.state.(log := e.state.log + [MergerSpawned(mergeSpark.value, session)])
  }

  function Whole(crew: Crew, mergeSpark: Option<string>, merger: Option<string>, world: nat -> Cycle, cfg: Config): State
    requires |crew.sparkIds| == |crew.owners|
  {
    Finish(Run(State(crew, map[], [], true), 0, world, cfg), mergeSpark, merger)
  }

  // The command after `spawn_crew`: loops over cycles, and `die` leaves with `alive == false`.
  method Orchestrate(crew: Crew, mergeSpark: Option<string>, merger: Option<string>, world: nat -> Cycle, cfg: Config)
    returns (state: State, cycles: nat, report: seq<Member>)
    requires |crew.sparkIds| == |crew.owners|
    ensures state == Whole(crew, mergeSpark, merger, world, cfg)
    ensures state.alive ==>
      var e := Run(State(crew, map[], [], true), 0, world, cfg); cycles == e.cycles && report == e.report
  {
    state, cycles, report := State(crew, map[], [], true), 0, [];
    ghost var e := Run(state, 0, world, cfg);
    var more := true;
    while more
      invariant more ==> cycles < Limit(cfg) && state.alive && |state.crew.sparkIds| == |state.crew.owners|
      invariant more ==> Run(state, cycles, world, cfg) == e
      invariant !more ==> e == Ending(state, cycles, report)
      decreases more, Limit(cfg) - cycles
    {
      state, report := PollOnce(state, cycles, world(cycles), cfg);
      if !state.alive || AllDone(report) {
        more := false;
      } else {
        state := HealOnce(state, report, world(cycles), cfg.cap);
        cycles := cycles + 1;
        more := state.alive && cycles < cfg.maxCycles;
      }
    }
    state := Finish(Ending(state, cycles, report), mergeSpark, merger);
  }

  method PollOnce(s: State, k: nat, c: Cycle, cfg: Config) returns (t: State, report: seq<Member>)
    requires |s.crew.sparkIds| == |s.crew.owners|
    ensures t == AfterPoll(s, k, c, cfg) && report == ReportOf(s, c, cfg)
    ensures |t.crew.sparkIds| == |t.crew.owners|
  {
    var crew := Drop(s.crew, c.listing);
    match Poll(crew, c, cfg.stallAfter) {
      case None =>
        t, report := s.(crew := crew, alive := false), [];
      case Some(r) =>
        t, report := s.(crew := crew, log := s.log + [Polled(k, r)]), r;
    }
  }

  method HealOnce(s: State, report: seq<Member>, c: Cycle, cap: nat) returns (t: State)
    requires s.alive && |s.crew.sparkIds| == |s.crew.owners|
    ensures t == Heal(s, report, c, cap) && |t.crew.sparkIds| == |t.crew.owners|
  {
    t := s;
    if AnyNeedy(report) {
      t := ReassignStalled(s, report, c, cap);
    }
  }

  method ReassignStalled(s: State, report: seq<Member>, c: Cycle, cap: nat) returns (t: State)
    requires s.alive
    ensures t == RespawnFirst(s, report, |report|, c, cap)
    ensures |t.crew.sparkIds| == |s.crew.sparkIds| && |t.crew.owners| == |s.crew.owners|
  {
    t := s;
    for i := 0 to |report|
      invariant t == RespawnFirst(s, report, i, c, cap) && t.alive
    {
      t := Respawn(t, report[i], i, c, cap);
      if !t.alive {
        DeadStaysDead(s, report, i + 1, |report|, c, cap);
        HealKeepsShape(s, report, |report|, c, cap);
        return;
      }
    }
    HealKeepsShape(s, report, |report|, c, cap);
  }

  lemma {:induction false} DeadStaysDead(s: State, report: seq<Member>, i: nat, n: nat, c: Cycle, cap: nat)
    requires i <= n <= |report| && !RespawnFirst(s, report, i, c, cap).alive
    ensures RespawnFirst(s, report, n, c, cap) == RespawnFirst(s, report, i, c, cap)
    decreases n
  {
    if i < n { DeadStaysDead(s, report, i, n - 1, c, cap); }
  }

  // ---- Counting over a log -------------------------------------------------------------------------

  function Polls(log: seq<Event>): nat {
    if log == [] then 0 else Polls(log[..|log| - 1]) + if log[|log| - 1].Polled? then 1 else 0
  }

  function Spawns(log: seq<Event>, spark: string): nat {
    if log == [] then 0
    else Spawns(log[..|log| - 1], spark) + if log[|log| - 1].Spawned? && log[|log| - 1].spark == spark then 1 else 0
  }

  function Mergers(log: seq<Event>): nat {
    if log == [] then 0 else Mergers(log[..|log| - 1]) + if log[|log| - 1].MergerSpawned? then 1 else 0
  }

  lemma LogPlus(log: seq<Event>, e: Event, spark: string)
    ensures Polls(log + [e]) == Polls(log) + if e.Polled? then 1 else 0
    ensures Spawns(log + [e], spark) == Spawns(log, spark) + if e.Spawned? && e.spark == spark then 1 else 0
    ensures Mergers(log + [e]) == Mergers(log) + if e.MergerSpawned? then 1 else 0
  {
    assert (log + [e])[..|log|] == log;
  }

  // The report in force after a log: that of the last poll.
  function LastReport(log: seq<Event>): Option<Event>
    ensures LastReport(log).Some? ==> LastReport(log).value.Polled?
  {
    if log == [] then None
    else if log[|log| - 1].Polled? then Some(log[|log| - 1])
    else LastReport(log[..|log| - 1])
  }

  // The poll in force saw that spark open and not stuck, and either unowned or owned by a Hand whose
  // last sign of life is unreadable or older than the threshold.
  ghost predicate SawAbandoned(poll: Event, spark: string, world: nat -> Cycle, cfg: Config)
    requires poll.Polled?
  {
    var c := world(poll.cycle);
    && c.views.Some? && spark in c.views.value
    && var v := c.views.value[spark];
       && v.Open?
       && (v.owner.None? || (!v.stuck && Silent(v.owner.value, c.now, cfg.stallAfter)))
  }

  predicate Silent(o: Owner, now: int, stallAfter: int) {
    o.beat.None? || now - o.beat.value > stallAfter
  }

  // What justifies an event after the log before it.
  ghost predicate Justified(log: seq<Event>, e: Event, world: nat -> Cycle, cfg: Config) {
    match e
    case Polled(k, report) => k == Polls(log)
    case Spawned(spark, _) =>
      && LastReport(log).Some?
      && !AllDone(LastReport(log).value.report)
      && SawAbandoned(LastReport(log).value, spark, world, cfg)
    case Released(spark, session) =>
      && LastReport(log).Some?
      && !AllDone(LastReport(log).value.report)
      && Member(spark, Stalled(session)) in LastReport(log).value.report
    case MergerSpawned(_, _) =>
      LastReport(log).Some? && AllDone(LastReport(log).value.report)
  }

  ghost predicate AllJustified(log: seq<Event>, world: nat -> Cycle, cfg: Config) {
    forall i :: 0 <= i < |log| ==> Justified(log[..i], log[i], world, cfg)
  }

  lemma JustifyPlus(log: seq<Event>, e: Event, world: nat -> Cycle, cfg: Config)
    requires AllJustified(log, world, cfg) && Justified(log, e, world, cfg)
    ensures AllJustified(log + [e], world, cfg)
    ensures LastReport(log + [e]) == if e.Polled? then Some(e) else LastReport(log)
  {
    var longer := log + [e];
    assert longer[..|log|] == log;
    forall i | 0 <= i < |longer| ensures Justified(longer[..i], longer[i], world, cfg) {
      if i < |log| {
        assert longer[..i] == log[..i];
        assert Justified(log[..i], log[i], world, cfg);
      }
    }
  }

  // ---- The invariant of the loop -------------------------------------------------------------------

  ghost predicate Inv(s: State, polls: nat, world: nat -> Cycle, cfg: Config) {
    && |s.crew.sparkIds| == |s.crew.owners|
    && Polls(s.log) == polls && Mergers(s.log) == 0
    && (forall spark :: Spawns(s.log, spark) == Count(s.counts, spark) <= cfg.cap)
    && AllJustified(s.log, world, cfg)
  }

  // The log ends in a report of cycle `k` that is not all done, possibly followed by releases and spawns.
  ghost predicate Healing(s: State, k: nat, report: seq<Member>) {
    LastReport(s.log) == Some(Polled(k, report)) && !AllDone(report)
  }

  ghost predicate NeedySeen(k: nat, report: seq<Member>, world: nat -> Cycle, cfg: Config) {
    forall i :: 0 <= i < |report| && Needy(report[i].state) ==>
      SawAbandoned(Polled(k, report), report[i].spark, world, cfg)
  }

  lemma PolledMembers(crew: Crew, c: Cycle, stallAfter: int, i: nat)
    requires Poll(crew, c, stallAfter).Some? && i < |Poll(crew, c, stallAfter).value|
    ensures var m := Poll(crew, c, stallAfter).value[i];
      && c.views.Some? && m.spark in c.views.value && m.spark == crew.sparkIds[i]
      && m.state == StateOf(c.views.value[m.spark], c.now, stallAfter)
  {
  }

  lemma NeedyIsAbandoned(v: View, now: int, stallAfter: int)
    ensures Needy(StateOf(v, now, stallAfter)) <==>
      v.Open? && (v.owner.None? || (!v.stuck && Silent(v.owner.value, now, stallAfter)))
  {
  }

  lemma {:induction false} LogEvent(s: State, t: State, e: Event, polls: nat, world: nat -> Cycle, cfg: Config)
    requires Inv(s, polls, world, cfg) && Justified(s.log, e, world, cfg) && !e.MergerSpawned?
    requires t.log == s.log + [e] && |t.crew.sparkIds| == |t.crew.owners|
    requires if e.Spawned? then Count(s.counts, e.spark) < cfg.cap && t.counts == s.counts[e.spark := Count(s.counts, e.spark) + 1]
             else t.counts == s.counts
    ensures Inv(t, if e.Polled? then polls + 1 else polls, world, cfg)
    ensures LastReport(t.log) == if e.Polled? then Some(e) else LastReport(s.log)
  {
    JustifyPlus(s.log, e, world, cfg);
    LogPlus(s.log, e, "");
    forall spark ensures Spawns(t.log, spark) == Count(t.counts, spark) <= cfg.cap {
      LogPlus(s.log, e, spark);
      assert Spawns(s.log, spark) == Count(s.counts, spark) <= cfg.cap;
    }
  }

  lemma RespawnKeepsInv(s: State, k: nat, report: seq<Member>, i: nat, world: nat -> Cycle, cfg: Config)
    requires Inv(s, k + 1, world, cfg) && Healing(s, k, report) && i < |report|
    requires Needy(report[i].state) ==> SawAbandoned(Polled(k, report), report[i].spark, world, cfg)
    ensures var t := Respawn(s, report[i], i, world(k), cfg.cap);
      Inv(t, k + 1, world, cfg) && Healing(t, k, report)
  {
    var m, c := report[i], world(k);
    var n := Count(s.counts, m.spark);
    if Needy(m.state) {
      if n >= cfg.cap {
        var t := s.(counts := s.counts[m.spark := n]);
        forall spark ensures Spawns(t.log, spark) == Count(t.counts, spark) <= cfg.cap {
          assert Spawns(s.log, spark) == Count(s.counts, spark) <= cfg.cap;
        }
      } else if !(m.state.Stalled? && !c.abandons(i)) {
        var u := s;
        if m.state.Stalled? {
          var e := Released(m.spark, m.state.session);
          assert m == Member(m.spark, Stalled(m.state.session));
          u := s.(log := s.log + [e]);
          LogEvent(s, u, e, k + 1, world, cfg);
        }
        assert s.log + [] == s.log;
        if c.spawns(i).Some? {
          var e := Spawned(m.spark, c.spawns(i).value);
          var t := u.(crew := SetOwner(s.crew, m.spark, e.session), counts := s.counts[m.spark := n + 1], log := u.log + [e]);
          LogEvent(u, t, e, k + 1, world, cfg);
          assert t == Respawn(s, m, i, c, cfg.cap);
        }
      }
    }
  }

  ghost predicate PassInv(t: State, k: nat, report: seq<Member>, world: nat -> Cycle, cfg: Config) {
    Inv(t, k + 1, world, cfg) && Healing(t, k, report)
  }

  lemma RespawnKeepsPassInv(t: State, k: nat, report: seq<Member>, i: nat, world: nat -> Cycle, cfg: Config, next: State)
    requires PassInv(t, k, report, world, cfg) && i < |report| && NeedySeen(k, report, world, cfg)
    requires next == if t.alive then Respawn(t, report[i], i, world(k), cfg.cap) else t
    ensures PassInv(next, k, report, world, cfg)
  {
    if t.alive { RespawnKeepsInv(t, k, report, i, world, cfg); }
  }

  lemma {:induction false} PassKeepsPassInv(s: State, k: nat, report: seq<Member>, n: nat, world: nat -> Cycle, cfg: Config)
    requires PassInv(s, k, report, world, cfg) && n <= |report| && NeedySeen(k, report, world, cfg)
    ensures PassInv(RespawnFirst(s, report, n, world(k), cfg.cap), k, report, world, cfg)
  {
    if n > 0 {
      PassKeepsPassInv(s, k, report, n - 1, world, cfg);
      RespawnKeepsPassInv(RespawnFirst(s, report, n - 1, world(k), cfg.cap), k, report, n - 1, world, cfg,
                          RespawnFirst(s, report, n, world(k), cfg.cap));
    }
  }

  lemma PassKeepsInv(s: State, k: nat, report: seq<Member>, n: nat, world: nat -> Cycle, cfg: Config)
    requires Inv(s, k + 1, world, cfg) && Healing(s, k, report) && n <= |report|
    requires NeedySeen(k, report, world, cfg)
    ensures var t := RespawnFirst(s, report, n, world(k), cfg.cap);
      Inv(t, k + 1, world, cfg) && Healing(t, k, report)
  {
    PassKeepsPassInv(s, k, report, n, world, cfg);
  }

  lemma PollKeepsInv(s: State, k: nat, world: nat -> Cycle, cfg: Config)
    requires Inv(s, k, world, cfg)
    ensures var t, report := AfterPoll(s, k, world(k), cfg), ReportOf(s, world(k), cfg);
      && Inv(t, if Poll(Drop(s.crew, world(k).listing), world(k), cfg.stallAfter).Some? then k + 1 else k, world, cfg)
      && (Poll(Drop(s.crew, world(k).listing), world(k), cfg.stallAfter).Some? ==>
           && LastReport(t.log) == Some(Polled(k, report))
           && NeedySeen(k, report, world, cfg))
  {
    var c := world(k);
    var crew := Drop(s.crew, c.listing);
    var t, report := AfterPoll(s, k, c, cfg), ReportOf(s, c, cfg);
    if Poll(crew, c, cfg.stallAfter).Some? {
      LogEvent(s, t, Polled(k, report), k, world, cfg);
      forall i | 0 <= i < |report| && Needy(report[i].state)
        ensures SawAbandoned(Polled(k, report), report[i].spark, world, cfg)
      {
        PolledMembers(crew, c, cfg.stallAfter, i);
        NeedyIsAbandoned(c.views.value[report[i].spark], c.now, cfg.stallAfter);
      }
    }
  }

  // ---- Results over whole runs ---------------------------------------------------------------------

  // Poll and, unless all is done, heal: one round of the loop.
  lemma CycleKeepsInv(s: State, k: nat, world: nat -> Cycle, cfg: Config)
    requires Inv(s, k, world, cfg) && s.alive
    ensures var polled, report := AfterPoll(s, k, world(k), cfg), ReportOf(s, world(k), cfg);
      var healed := Heal(polled, report, world(k), cfg.cap);
      && Inv(polled, if polled.alive then k + 1 else k, world, cfg)
      && (polled.alive ==> LastReport(polled.log) == Some(Polled(k, report)))
      && (polled.alive && !AllDone(report) ==> Inv(healed, k + 1, world, cfg) && Healing(healed, k, report))
  {
    var polled, report := AfterPoll(s, k, world(k), cfg), ReportOf(s, world(k), cfg);
    PollKeepsInv(s, k, world, cfg);
    if polled.alive && !AllDone(report) && AnyNeedy(report) {
      PassKeepsInv(polled, k, report, |report|, world, cfg);
    }
  }

  lemma {:induction false} RunKeepsInv(s: State, k: nat, world: nat -> Cycle, cfg: Config)
    requires Inv(s, k, world, cfg) && k < Limit(cfg) && s.alive
    ensures var e := Run(s, k, world, cfg);
      && Inv(e.state, Polls(e.state.log), world, cfg) && Polls(e.state.log) <= Limit(cfg)
      && (e.state.alive ==>
           && LastReport(e.state.log).Some? && LastReport(e.state.log).value.report == e.report
           && (AllDone(e.report) || Polls(e.state.log) == Limit(cfg)))
    decreases Limit(cfg) - k
  {
    var polled, report := AfterPoll(s, k, world(k), cfg), ReportOf(s, world(k), cfg);
    CycleKeepsInv(s, k, world, cfg);
    if polled.alive && !AllDone(report) {
      var healed := Heal(polled, report, world(k), cfg.cap);
      if healed.alive && k + 1 < cfg.maxCycles {
        RunKeepsInv(healed, k + 1, world, cfg);
      }
    }
  }

  // For every behaviour of the environment: at most max(1, max_cycles) polls; no spark is respawned
  // more often than the cap; every release and respawn rests on the latest report, which was not all
  // done and saw the spark abandoned; at most one Merger is spawned, as the last event, on an all-done
  // report; and a run that does not die ends all done or with the cycles used up.
  lemma RunIsSafe(crew: Crew, mergeSpark: Option<string>, merger: Option<string>, world: nat -> Cycle, cfg: Config)
    requires |crew.sparkIds| == |crew.owners|
    ensures var s := Whole(crew, mergeSpark, merger, world, cfg);
      && Polls(s.log) <= Limit(cfg)
      && (forall spark :: Spawns(s.log, spark) <= cfg.cap)
      && AllJustified(s.log, world, cfg)
      && Mergers(s.log) <= 1
      && (Mergers(s.log) == 1 ==> s.log[|s.log| - 1].MergerSpawned? && mergeSpark == Some(s.log[|s.log| - 1].spark))
  {
    var start := State(crew, map[], [], true);
    RunKeepsInv(start, 0, world, cfg);
    var e := Run(start, 0, world, cfg);
    var s := Whole(crew, mergeSpark, merger, world, cfg);
    forall spark ensures Spawns(e.state.log, spark) <= cfg.cap {
    }
    if s.log != e.state.log {
      var m := MergerSpawned(mergeSpark.value, merger.value);
      JustifyPlus(e.state.log, m, world, cfg);
      forall spark ensures Spawns(s.log, spark) <= cfg.cap { LogPlus(e.state.log, m, spark); }
      LogPlus(e.state.log, m, "");
    }
  }

  // A Merger is spawned exactly when the run survives, its last report is all done and a merge spark
  // was named; and a surviving run whose last report is not all done used every cycle.
  lemma MergerExactly(crew: Crew, mergeSpark: Option<string>, merger: Option<string>, world: nat -> Cycle, cfg: Config)
    requires |crew.sparkIds| == |crew.owners|
    ensures var s := Whole(crew, mergeSpark, merger, world, cfg);
      var e := Run(State(crew, map[], [], true), 0, world, cfg);
      && (Mergers(s.log) == 1 <==> s.alive && AllDone(e.report) && mergeSpark.Some?)
      && (s.alive ==> AllDone(e.report) || Polls(s.log) == Limit(cfg))
  {
    var start := State(crew, map[], [], true);
    RunKeepsInv(start, 0, world, cfg);
    var e := Run(start, 0, world, cfg);
    if e.state.alive && AllDone(e.report) && mergeSpark.Some? && merger.Some? {
      LogPlus(e.state.log, MergerSpawned(mergeSpark.value, merger.value), "");
    }
  }

  // ---- What one pass does --------------------------------------------------------------------------

  function NeedyRows(report: seq<Member>, n: nat, spark: string): nat
    requires n <= |report|
  {
    if n == 0 then 0
    else NeedyRows(report, n - 1, spark) + if report[n - 1].spark == spark && Needy(report[n - 1].state) then 1 else 0
  }

  // A pass that survives gives every needy row a new Hand until its spark reaches the cap.
  lemma {:induction false} PassServesEveryone(s: State, report: seq<Member>, n: nat, c: Cycle, cap: nat, spark: string)
    requires n <= |report| && Count(s.counts, spark) <= cap && s.alive
    ensures var t := RespawnFirst(s, report, n, c, cap);
      var wanted := Count(s.counts, spark) + NeedyRows(report, n, spark);
      t.alive ==> Count(t.counts, spark) == if wanted <= cap then wanted else cap
  {
    if n > 0 { PassServesEveryone(s, report, n - 1, c, cap, spark); }
  }

  // ---- Releases and respawns come in pairs -----------------------------------------------------------

  // The Hand of a stalled row is spawned right behind the release of its old claim, that of an unassigned
  // row without one; and a release is followed by its spawn, unless it is the last event.
  ghost predicate WellPaired(log: seq<Event>, i: nat)
    requires i < |log|
  {
    match log[i]
    case Spawned(spark, _) =>
      && i > 0 && LastReport(log[..i]).Some?
      && var report := LastReport(log[..i]).value.report;
         && (forall session :: Member(spark, Stalled(session)) in report ==> log[i - 1] == Released(spark, session))
         && (Member(spark, Unassigned) in report ==> !log[i - 1].Released?)
         && ((exists session :: Member(spark, Stalled(session)) in report) || Member(spark, Unassigned) in report)
    case Released(spark, _) => i + 1 == |log| || (log[i + 1].Spawned? && log[i + 1].spark == spark)
    case _ => true
  }

  predicate EndsInRelease(log: seq<Event>) { log != [] && log[|log| - 1].Released? }

  // In pairs, and only a run that has died ends between the two.
  ghost predicate Paired(s: State) {
    (forall i :: 0 <= i < |s.log| ==> WellPaired(s.log, i)) && (s.alive ==> !EndsInRelease(s.log))
  }

  lemma LastReportPlus(log: seq<Event>, e: Event)
    ensures LastReport(log + [e]) == if e.Polled? then Some(e) else LastReport(log)
  {
    assert (log + [e])[..|log|] == log;
  }

  lemma PairPlus(log: seq<Event>, e: Event)
    requires forall i :: 0 <= i < |log| ==> WellPaired(log, i)
    requires EndsInRelease(log) ==> e.Spawned? && e.spark == log[|log| - 1].spark
    requires e.Spawned? ==> WellPaired(log + [e], |log|)
    ensures forall i :: 0 <= i < |log + [e]| ==> WellPaired(log + [e], i)
  {
    var longer := log + [e];
    forall i | 0 <= i < |longer| ensures WellPaired(longer, i) {
      if i < |log| {
        assert WellPaired(log, i);
        assert longer[..i] == log[..i];
      }
    }
  }

  // One state for a spark, however often the crew lists it.
  ghost predicate OneState(report: seq<Member>) {
    forall a, b :: 0 <= a < |report| && 0 <= b < |report| && report[a].spark == report[b].spark ==> report[a] == report[b]
  }

  lemma RespawnStalled(s: State, report: seq<Member>, i: nat, k: nat, session: string)
    requires Paired(s) && s.alive && LastReport(s.log) == Some(Polled(k, report)) && OneState(report) && i < |report|
    requires report[i].state.Stalled?
    ensures var log := s.log + [Released(report[i].spark, report[i].state.session)];
      && (forall j :: 0 <= j < |log| ==> WellPaired(log, j))
      && (forall j :: 0 <= j < |log + [Spawned(report[i].spark, session)]| ==> WellPaired(log + [Spawned(report[i].spark, session)], j))
  {
    var m := report[i];
    var r, e := Released(m.spark, m.state.session), Spawned(m.spark, session);
    var log := s.log + [r];
    PairPlus(s.log, r);
    LastReportPlus(s.log, r);
    assert (log + [e])[..|log|] == log && (log + [e])[|log| - 1] == r;
    assert Member(m.spark, Stalled(m.state.session)) in report;
    assert WellPaired(log + [e], |log|);
    PairPlus(log, e);
  }

  lemma RespawnUnassigned(s: State, report: seq<Member>, i: nat, k: nat, session: string)
    requires Paired(s) && s.alive && LastReport(s.log) == Some(Polled(k, report)) && OneState(report) && i < |report|
    requires report[i].state.Unassigned?
    ensures var log := s.log + [Spawned(report[i].spark, session)]; forall j :: 0 <= j < |log| ==> WellPaired(log, j)
  {
    var e := Spawned(report[i].spark, session);
    assert (s.log + [e])[..|s.log|] == s.log && (s.log + [e])[|s.log| - 1] == s.log[|s.log| - 1];
    assert Member(report[i].spark, Unassigned) in report;
    assert WellPaired(s.log + [e], |s.log|);
    PairPlus(s.log, e);
  }

  lemma RespawnKeepsPairs(s: State, report: seq<Member>, i: nat, k: nat, c: Cycle, cap: nat)
    requires Paired(s) && s.alive && LastReport(s.log) == Some(Polled(k, report)) && OneState(report) && i < |report|
    ensures var t := Respawn(s, report[i], i, c, cap); Paired(t) && LastReport(t.log) == LastReport(s.log)
  {
    var m := report[i];
    var session := if c.spawns(i).Some? then c.spawns(i).value else "";
    assert s.log + [] == s.log;
    if m.state.Stalled? {
      RespawnStalled(s, report, i, k, session);
      LastReportPlus(s.log, Released(m.spark, m.state.session));
      LastReportPlus(s.log + [Released(m.spark, m.state.session)], Spawned(m.spark, session));
    } else if m.state.Unassigned? {
      RespawnUnassigned(s, report, i, k, session);
      LastReportPlus(s.log, Spawned(m.spark, session));
    }
  }

  lemma {:induction false} PassKeepsPairs(s: State, report: seq<Member>, n: nat, k: nat, c: Cycle, cap: nat)
    requires Paired(s) && s.alive && LastReport(s.log) == Some(Polled(k, report)) && OneState(report) && n <= |report|
    ensures var t := RespawnFirst(s, report, n, c, cap); Paired(t) && LastReport(t.log) == LastReport(s.log)
  {
    if n > 0 {
      PassKeepsPairs(s, report, n - 1, k, c, cap);
      var t := RespawnFirst(s, report, n - 1, c, cap);
      if t.alive { RespawnKeepsPairs(t, report, n - 1, k, c, cap); }
    }
  }

  lemma PollKeepsPairs(s: State, k: nat, c: Cycle, cfg: Config)
    requires Paired(s) && s.alive && |s.crew.sparkIds| == |s.crew.owners|
    ensures var t, report := AfterPoll(s, k, c, cfg), ReportOf(s, c, cfg);
      Paired(t) && (t.alive ==> LastReport(t.log) == Some(Polled(k, report)) && OneState(report))
  {
    var t, report := AfterPoll(s, k, c, cfg), ReportOf(s, c, cfg);
    if t.alive {
      PairPlus(s.log, Polled(k, report));
      LastReportPlus(s.log, Polled(k, report));
      forall a | 0 <= a < |report|
        ensures c.views.Some? && report[a].spark in c.views.value
        ensures report[a].state == StateOf(c.views.value[report[a].spark], c.now, cfg.stallAfter)
      {
        PolledMembers(Drop(s.crew, c.listing), c, cfg.stallAfter, a);
      }
    }
  }

  lemma {:induction false} RunKeepsPairs(s: State, k: nat, world: nat -> Cycle, cfg: Config)
    requires Paired(s) && s.alive && |s.crew.sparkIds| == |s.crew.owners| && k < Limit(cfg)
    ensures Paired(Run(s, k, world, cfg).state)
    decreases Limit(cfg) - k
  {
    var polled, report := AfterPoll(s, k, world(k), cfg), ReportOf(s, world(k), cfg);
    PollKeepsPairs(s, k, world(k), cfg);
    if polled.alive && !AllDone(report) {
      var healed := Heal(polled, report, world(k), cfg.cap);
      if AnyNeedy(report) { PassKeepsPairs(polled, report, |report|, k, world(k), cfg.cap); }
      if healed.alive && k + 1 < cfg.maxCycles { RunKeepsPairs(healed, k + 1, world, cfg); }
    }
  }

  // In the log of every whole run releases and respawns come in pairs, as `WellPaired` says, and only a run
  // that has died can end with a release.
  lemma StalledClaimsAreReleased(crew: Crew, mergeSpark: Option<string>, merger: Option<string>, world: nat -> Cycle, cfg: Config)
    requires |crew.sparkIds| == |crew.owners|
    ensures var s := Whole(crew, mergeSpark, merger, world, cfg);
      && (forall i :: 0 <= i < |s.log| ==> WellPaired(s.log, i))
      && (s.log != [] && s.log[|s.log| - 1].Released? ==> !s.alive)
  {
    var start := State(crew, map[], [], true);
    RunKeepsPairs(start, 0, world, cfg);
    var e := Run(start, 0, world, cfg).state;
    var s := Whole(crew, mergeSpark, merger, world, cfg);
    if s.log != e.log { PairPlus(e.log, s.log[|e.log|]); }
  }

  // ---- Every needy row is served ---------------------------------------------------------------------

  function Least(a: nat, b: nat): nat { if a <= b then a else b }

  // From the poll at `i`, which is not all done, up to the next poll or the end at `j`.
  ghost predicate Round(log: seq<Event>, i: int, j: int) {
    && 0 <= i < j <= |log| && log[i].Polled? && !AllDone(log[i].report)
    && (forall m :: i < m < j ==> !log[m].Polled?)
    && (j == |log| || log[j].Polled?)
  }

  // Within the round each needy row of its report got a new Hand, until its spark reached the cap.
  ghost predicate Served(log: seq<Event>, i: int, j: int, cap: nat)
    requires 0 <= i < j <= |log| && log[i].Polled?
  {
    forall spark :: Spawns(log[..j], spark) ==
      Least(cap, Spawns(log[..i], spark) + NeedyRows(log[i].report, |log[i].report|, spark))
  }

  // Every round of the log is served; the last one only if the run has not died in it.
  ghost predicate AllServed(log: seq<Event>, alive: bool, cap: nat) {
    forall i, j :: Round(log, i, j) && (j < |log| || alive) ==> Served(log, i, j, cap)
  }

  lemma {:induction false} PassAppends(s: State, report: seq<Member>, n: nat, c: Cycle, cap: nat)
    requires n <= |report|
    ensures var t := RespawnFirst(s, report, n, c, cap);
      s.log <= t.log && forall m :: |s.log| <= m < |t.log| ==> !t.log[m].Polled?
  {
    if n > 0 { PassAppends(s, report, n - 1, c, cap); }
  }

  lemma RoundAppended(log: seq<Event>, longer: seq<Event>, alive: bool, cap: nat)
    requires AllServed(log, true, cap) && |log| < |longer| && log <= longer && longer[|log|].Polled?
    requires forall m :: |log| < m < |longer| ==> !longer[m].Polled?
    requires alive && !AllDone(longer[|log|].report) ==> Served(longer, |log|, |longer|, cap)
    ensures AllServed(longer, alive, cap)
  {
    forall i, j | Round(longer, i, j) && (j < |longer| || alive) ensures Served(longer, i, j, cap) {
      if i < |log| {
        assert j <= |log|;
        assert Round(log, i, j);
        assert longer[..j] == log[..j] && longer[..i] == log[..i];
      } else if i == |log| {
        assert j == |longer|;
      }
    }
  }

  // The spark's count went up by its needy rows, up to the cap.
  ghost predicate CountServed(before: map<string, nat>, after: map<string, nat>, report: seq<Member>, spark: string, cap: nat) {
    Count(after, spark) == Least(cap, Count(before, spark) + NeedyRows(report, |report|, spark))
  }

  lemma PassCounts(s: State, report: seq<Member>, c: Cycle, cap: nat, spark: string)
    requires Count(s.counts, spark) <= cap && s.alive
    ensures var t := RespawnFirst(s, report, |report|, c, cap); t.alive ==> CountServed(s.counts, t.counts, report, spark, cap)
  {
    PassServesEveryone(s, report, |report|, c, cap, spark);
  }

  lemma NobodyCounts(counts: map<string, nat>, report: seq<Member>, spark: string, cap: nat)
    requires !AnyNeedy(report) && Count(counts, spark) <= cap
    ensures CountServed(counts, counts, report, spark, cap)
  {
    NoNeedyRows(report, |report|, spark);
  }

  lemma HealCounts(polled: State, report: seq<Member>, c: Cycle, cap: nat, spark: string, healed: State)
    requires polled.alive && Count(polled.counts, spark) <= cap && healed == Heal(polled, report, c, cap) && healed.alive
    ensures CountServed(polled.counts, healed.counts, report, spark, cap)
  {
    if AnyNeedy(report) {
      PassCounts(polled, report, c, cap, spark);
    } else {
      NobodyCounts(polled.counts, report, spark, cap);
    }
  }

  lemma InvCounts(s: State, polls: nat, world: nat -> Cycle, cfg: Config, spark: string)
    requires Inv(s, polls, world, cfg)
    ensures Spawns(s.log, spark) == Count(s.counts, spark) <= cfg.cap
  {
  }

  lemma PollCounts(s: State, k: nat, c: Cycle, cfg: Config)
    requires |s.crew.sparkIds| == |s.crew.owners|
    ensures AfterPoll(s, k, c, cfg).counts == s.counts
  {
  }

  lemma HealAppends(s: State, k: nat, c: Cycle, cfg: Config)
    requires |s.crew.sparkIds| == |s.crew.owners| && s.alive && AfterPoll(s, k, c, cfg).alive
    ensures var polled, report := AfterPoll(s, k, c, cfg), ReportOf(s, c, cfg);
      var log := Heal(polled, report, c, cfg.cap).log;
      && |s.log| < |log| && s.log <= log && log[|s.log|] == Polled(k, report)
      && forall m :: |s.log| < m < |log| ==> !log[m].Polled?
  {
    var polled, report := AfterPoll(s, k, c, cfg), ReportOf(s, c, cfg);
    PassAppends(polled, report, |report|, c, cfg.cap);
  }

  lemma RoundServed(s: State, t: State, k: nat, report: seq<Member>, world: nat -> Cycle, cfg: Config)
    requires Inv(s, k, world, cfg) && AllServed(s.log, true, cfg.cap) && Inv(t, k + 1, world, cfg)
    requires |s.log| < |t.log| && s.log <= t.log && t.log[|s.log|] == Polled(k, report)
    requires forall m :: |s.log| < m < |t.log| ==> !t.log[m].Polled?
    requires t.alive ==> forall spark :: CountServed(s.counts, t.counts, report, spark, cfg.cap)
    ensures AllServed(t.log, t.alive, cfg.cap)
  {
    assert t.log[..|s.log|] == s.log && t.log[..|t.log|] == t.log;
    if t.alive {
      forall spark
        ensures Spawns(t.log[..|t.log|], spark) == Least(cfg.cap, Spawns(t.log[..|s.log|], spark) + NeedyRows(report, |report|, spark))
      {
        InvCounts(s, k, world, cfg, spark);
        InvCounts(t, k + 1, world, cfg, spark);
        assert CountServed(s.counts, t.counts, report, spark, cfg.cap);
      }
      assert Served(t.log, |s.log|, |t.log|, cfg.cap);
    }
    RoundAppended(s.log, t.log, t.alive, cfg.cap);
  }

  lemma HealServes(s: State, k: nat, world: nat -> Cycle, cfg: Config, polled: State, report: seq<Member>, healed: State)
    requires Inv(s, k, world, cfg) && s.alive && AllServed(s.log, true, cfg.cap)
    requires polled == AfterPoll(s, k, world(k), cfg) && report == ReportOf(s, world(k), cfg)
    requires polled.alive && !AllDone(report) && healed == Heal(polled, report, world(k), cfg.cap)
    ensures AllServed(healed.log, healed.alive, cfg.cap)
  {
    HealAppends(s, k, world(k), cfg);
    CycleKeepsInv(s, k, world, cfg);
    PollCounts(s, k, world(k), cfg);
    if healed.alive {
      forall spark ensures CountServed(s.counts, healed.counts, report, spark, cfg.cap) {
        InvCounts(s, k, world, cfg, spark);
        HealCounts(polled, report, world(k), cfg.cap, spark, healed);
      }
    }
    RoundServed(s, healed, k, report, world, cfg);
  }

  lemma {:induction false} NoNeedyRows(report: seq<Member>, n: nat, spark: string)
    requires n <= |report| && !AnyNeedy(report)
    ensures NeedyRows(report, n, spark) == 0
  {
    if n > 0 { NoNeedyRows(report, n - 1, spark); }
  }

  lemma {:induction false} RunServes(s: State, k: nat, world: nat -> Cycle, cfg: Config)
    requires Inv(s, k, world, cfg) && s.alive && AllServed(s.log, true, cfg.cap) && k < Limit(cfg)
    ensures var e := Run(s, k, world, cfg).state; AllServed(e.log, e.alive, cfg.cap)
    decreases Limit(cfg) - k
  {
    var polled, report := AfterPoll(s, k, world(k), cfg), ReportOf(s, world(k), cfg);
    CycleKeepsInv(s, k, world, cfg);
    if polled.alive && AllDone(report) {
      RoundAppended(s.log, polled.log, true, cfg.cap);
    } else if polled.alive {
      var healed := Heal(polled, report, world(k), cfg.cap);
      HealServes(s, k, world, cfg, polled, report, healed);
      if healed.alive && k + 1 < cfg.maxCycles { RunServes(healed, k + 1, world, cfg); }
    }
  }

  // In every run every poll that is not all done is followed by the respawns its needy rows ask for, up to
  // the cap, before the next poll or the end, unless the run dies first.
  lemma EveryRoundIsServed(crew: Crew, world: nat -> Cycle, cfg: Config)
    requires |crew.sparkIds| == |crew.owners|
    ensures var e := Run(State(crew, map[], [], true), 0, world, cfg).state; AllServed(e.log, e.alive, cfg.cap)
  {
    RunServes(State(crew, map[], [], true), 0, world, cfg);
  }

  // ---- Who is reported -------------------------------------------------------------------------------

  // No listing up to cycle `k` shows the spark closed for a reason other than `completed`.
  ghost predicate Stays(id: string, world: nat -> Cycle, k: int) {
    forall j: nat :: j <= k && world(j).listing.Some? && id in world(j).listing.value && world(j).listing.value[id].Closed? ==>
      world(j).listing.value[id].reason == Some("completed")
  }

  // The poll reports the sparks of the crew that stayed, each in the state that its view has.
  ghost predicate Reports(e: Event, first: Crew, world: nat -> Cycle, cfg: Config)
    requires e.Polled?
  {
    var c := world(e.cycle);
    && c.views.Some?
    && (forall id :: (exists i :: 0 <= i < |e.report| && e.report[i].spark == id) <==> id in first.sparkIds && Stays(id, world, e.cycle))
    && (forall i :: 0 <= i < |e.report| ==>
          && e.report[i].spark in c.views.value
          && e.report[i].state == StateOf(c.views.value[e.report[i].spark], c.now, cfg.stallAfter))
  }

  ghost predicate AllReports(log: seq<Event>, first: Crew, world: nat -> Cycle, cfg: Config) {
    forall i :: 0 <= i < |log| && log[i].Polled? ==> Reports(log[i], first, world, cfg)
  }

  ghost predicate Members(s: State, first: Crew, world: nat -> Cycle, k: nat) {
    && |s.crew.sparkIds| == |s.crew.owners|
    && forall id :: id in s.crew.sparkIds <==> id in first.sparkIds && Stays(id, world, k - 1)
  }

  lemma DropExactly(crew: Crew, listing: Option<map<string, View>>, id: string)
    requires |crew.sparkIds| == |crew.owners|
    ensures id in Drop(crew, listing).sparkIds <==>
      && id in crew.sparkIds
      && (listing.Some? && id in listing.value && listing.value[id].Closed? ==> listing.value[id].reason == Some("completed"))
  {
    assert crew.sparkIds[..|crew.sparkIds|] == crew.sparkIds;
  }

  lemma PollReports(s: State, k: nat, first: Crew, world: nat -> Cycle, cfg: Config)
    requires Members(s, first, world, k) && AllReports(s.log, first, world, cfg) && s.alive
    ensures var t := AfterPoll(s, k, world(k), cfg); Members(t, first, world, k + 1) && AllReports(t.log, first, world, cfg)
  {
    var c := world(k);
    var t, report := AfterPoll(s, k, c, cfg), ReportOf(s, c, cfg);
    var crew := Drop(s.crew, c.listing);
    forall id ensures id in crew.sparkIds <==> id in first.sparkIds && Stays(id, world, k) {
      DropExactly(s.crew, c.listing, id);
      assert Stays(id, world, k) ==> Stays(id, world, k - 1);
    }
    if t.alive {
      forall i | 0 <= i < |report|
        ensures c.views.Some? && report[i].spark in c.views.value && report[i].spark == crew.sparkIds[i]
        ensures report[i].state == StateOf(c.views.value[report[i].spark], c.now, cfg.stallAfter)
      {
        PolledMembers(crew, c, cfg.stallAfter, i);
      }
      assert |report| == |crew.sparkIds|;
      forall id ensures (exists i :: 0 <= i < |report| && report[i].spark == id) <==> id in crew.sparkIds {
        if id in crew.sparkIds {
          var i :| 0 <= i < |crew.sparkIds| && crew.sparkIds[i] == id;
          assert report[i].spark == id;
        }
      }
      assert Reports(Polled(k, report), first, world, cfg);
    }
  }

  lemma {:induction false} RunReports(s: State, k: nat, first: Crew, world: nat -> Cycle, cfg: Config)
    requires Members(s, first, world, k) && AllReports(s.log, first, world, cfg) && s.alive && k < Limit(cfg)
    ensures AllReports(Run(s, k, world, cfg).state.log, first, world, cfg)
    decreases Limit(cfg) - k
  {
    var polled, report := AfterPoll(s, k, world(k), cfg), ReportOf(s, world(k), cfg);
    PollReports(s, k, first, world, cfg);
    if polled.alive && !AllDone(report) {
      var healed := Heal(polled, report, world(k), cfg.cap);
      PassAppends(polled, report, |report|, world(k), cfg.cap);
      HealKeepsShape(polled, report, |report|, world(k), cfg.cap);
      assert AllReports(healed.log, first, world, cfg);
      if healed.alive && k + 1 < cfg.maxCycles { RunReports(healed, k + 1, first, world, cfg); }
    }
  }

  // In every run each poll reports exactly the sparks of the crew that no listing so far showed closed
  // otherwise, each in the state its view has.
  lemma EveryPollReportsTheCrew(crew: Crew, world: nat -> Cycle, cfg: Config)
    requires |crew.sparkIds| == |crew.owners|
    ensures AllReports(Run(State(crew, map[], [], true), 0, world, cfg).state.log, crew, world, cfg)
  {
    RunReports(State(crew, map[], [], true), 0, crew, world, cfg);
  }

  // What a view means: closed sparks are done, a stuck assignment outranks its heartbeat, and an owner is
  // stalled once silent for longer than the threshold.
  lemma StatesExactly(v: View, now: int, stallAfter: int)
    ensures var m := StateOf(v, now, stallAfter);
      && (Done(m) <==> v.Closed?)
      && (m == Completed <==> v == Closed(Some("completed")))
      && (v.Closed? && m.ClosedOther? ==> m.reason == if v.reason.Some? then v.reason.value else "closed")
      && (m.Unassigned? <==> v.Open? && v.owner.None?)
      && (m.Stuck? <==> v.Open? && v.owner.Some? && v.stuck)
      && (m.Stalled? <==> v.Open? && v.owner.Some? && !v.stuck && Silent(v.owner.value, now, stallAfter))
      && (m.Running? <==> v.Open? && v.owner.Some? && !v.stuck && !Silent(v.owner.value, now, stallAfter))
      && (m.Stuck? || m.Stalled? || m.Running? ==> m.session == v.owner.value.session)
  {
  }

  // ---- A run dies only of a failed answer ------------------------------------------------------------

  ghost predicate AllAnswered(c: Cycle, ids: seq<string>) {
    && c.views.Some? && (forall id :: id in ids ==> id in c.views.value)
    && (forall i :: c.abandons(i)) && (forall i :: c.spawns(i).Some?)
  }

  lemma {:induction false} PassSurvives(s: State, report: seq<Member>, n: nat, c: Cycle, cap: nat)
    requires n <= |report| && s.alive && (forall i :: c.abandons(i)) && (forall i :: c.spawns(i).Some?)
    ensures RespawnFirst(s, report, n, c, cap).alive
  {
    if n > 0 { PassSurvives(s, report, n - 1, c, cap); }
  }

  // Row `i` asks for a Hand and its spark is below the cap when its turn comes.
  ghost predicate Attempted(counts: map<string, nat>, report: seq<Member>, i: nat, cap: nat)
    requires i < |report|
  {
    Needy(report[i].state) && Count(counts, report[i].spark) + NeedyRows(report, i, report[i].spark) < cap
  }

  ghost predicate Answered(report: seq<Member>, i: nat, c: Cycle)
    requires i < |report|
  {
    (report[i].state.Stalled? ==> c.abandons(i)) && c.spawns(i).Some?
  }

  lemma RowDies(t: State, report: seq<Member>, i: nat, c: Cycle, cap: nat)
    requires t.alive && i < |report|
    ensures Respawn(t, report[i], i, c, cap).alive <==>
            (Needy(report[i].state) && Count(t.counts, report[i].spark) < cap ==> Answered(report, i, c))
  {
  }

  ghost predicate NoRowFails(counts: map<string, nat>, report: seq<Member>, n: nat, c: Cycle, cap: nat)
    requires n <= |report|
  {
    forall i :: 0 <= i < n && Attempted(counts, report, i, cap) ==> Answered(report, i, c)
  }

  // A pass dies exactly of a release or a spawn that fails on a row it attempts.
  lemma {:induction false} PassDiesExactly(s: State, report: seq<Member>, n: nat, c: Cycle, cap: nat)
    requires n <= |report| && s.alive && forall spark :: Count(s.counts, spark) <= cap
    ensures RespawnFirst(s, report, n, c, cap).alive <==> NoRowFails(s.counts, report, n, c, cap)
  {
    if n > 0 {
      PassDiesExactly(s, report, n - 1, c, cap);
      var t := RespawnFirst(s, report, n - 1, c, cap);
      if t.alive {
        PassServesEveryone(s, report, n - 1, c, cap, report[n - 1].spark);
        RowDies(t, report, n - 1, c, cap);
      }
    }
  }

  // Every Hand in the log of a pass is the one its row's spawn answered with.
  lemma {:induction false} PassSpawnsWhatAnswers(s: State, report: seq<Member>, n: nat, c: Cycle, cap: nat, m: nat)
    requires n <= |report| && |s.log| <= m < |RespawnFirst(s, report, n, c, cap).log|
    ensures var e := RespawnFirst(s, report, n, c, cap).log[m];
      e.Spawned? ==> exists i :: 0 <= i < n && report[i].spark == e.spark && c.spawns(i) == Some(e.session)
  {
    if n > 0 {
      var t := RespawnFirst(s, report, n - 1, c, cap);
      PassAppends(s, report, n - 1, c, cap);
      if m < |t.log| {
        PassSpawnsWhatAnswers(s, report, n - 1, c, cap, m);
      }
    }
  }

  // A run in which every poll, release and spawn succeeds does not die.
  lemma {:induction false} RunSurvives(s: State, k: nat, world: nat -> Cycle, cfg: Config)
    requires s.alive && |s.crew.sparkIds| == |s.crew.owners| && k < Limit(cfg)
    requires forall j :: k <= j < Limit(cfg) ==> AllAnswered(world(j), s.crew.sparkIds)
    ensures Run(s, k, world, cfg).state.alive
    decreases Limit(cfg) - k
  {
    var c := world(k);
    var polled, report := AfterPoll(s, k, c, cfg), ReportOf(s, c, cfg);
    forall id | id in Drop(s.crew, c.listing).sparkIds ensures id in s.crew.sparkIds { DropExactly(s.crew, c.listing, id); }
    assert AllAnswered(c, s.crew.sparkIds);
    assert polled.alive;
    if !AllDone(report) {
      var healed := Heal(polled, report, c, cfg.cap);
      PassSurvives(polled, report, |report|, c, cfg.cap);
      HealKeepsShape(polled, report, |report|, c, cfg.cap);
      if k + 1 < cfg.maxCycles {
        forall j | k + 1 <= j < Limit(cfg) ensures AllAnswered(world(j), healed.crew.sparkIds) {
          assert AllAnswered(world(j), s.crew.sparkIds);
        }
        RunSurvives(healed, k + 1, world, cfg);
      }
    }
  }

  // ---- Who owns a spark ----------------------------------------------------------------------------

  // The owner the crew handle shows for a spark: that of its first slot.
  function OwnerOf(crew: Crew, id: string): string
    requires id in crew.sparkIds && |crew.sparkIds| == |crew.owners|
  {
    FoundInside(crew.sparkIds, id);
    crew.owners[Position(crew.sparkIds, id)]
  }

  lemma {:induction false} FoundInside(ids: seq<string>, id: string)
    ensures id in ids <==> Position(ids, id) < |ids|
  {
    if ids != [] && ids[0] != id { FoundInside(ids[1..], id); }
  }

  lemma {:induction false} PositionSnoc(ids: seq<string>, last: string, id: string)
    ensures Position(ids + [last], id) ==
            if id in ids then Position(ids, id) else if last == id then |ids| else |ids| + 1
  {
    if ids == [] {
      assert ids + [last] == [last] && [last][1..] == [];
    } else {
      assert (ids + [last])[1..] == ids[1..] + [last];
      PositionSnoc(ids[1..], last, id);
    }
  }

  function Front(crew: Crew, n: nat): Crew
    requires n <= |crew.sparkIds| == |crew.owners|
  {
    Crew(crew.sparkIds[..n], crew.owners[..n])
  }

  lemma {:induction false} KeepsOwner(crew: Crew, listing: map<string, View>, n: nat, id: string)
    requires n <= |crew.sparkIds| == |crew.owners| && id in KeepFirst(crew, listing, n).sparkIds
    ensures OwnerOf(KeepFirst(crew, listing, n), id) == OwnerOf(Front(crew, n), id)
  {
    if n > 0 {
      var kept, last := KeepFirst(crew, listing, n - 1), crew.sparkIds[n - 1];
      assert crew.sparkIds[..n] == crew.sparkIds[..n - 1] + [last];
      PositionSnoc(crew.sparkIds[..n - 1], last, id);
      PositionSnoc(kept.sparkIds, last, id);
      if id in kept.sparkIds {
        KeepsOwner(crew, listing, n - 1, id);
        FoundInside(kept.sparkIds, id);
        FoundInside(crew.sparkIds[..n - 1], id);
      }
    }
  }

  lemma DropKeepsOwner(crew: Crew, listing: Option<map<string, View>>, id: string)
    requires |crew.sparkIds| == |crew.owners| && id in Drop(crew, listing).sparkIds
    ensures id in crew.sparkIds && OwnerOf(Drop(crew, listing), id) == OwnerOf(crew, id)
  {
    if listing.Some? {
      KeepsOwner(crew, listing.value, |crew.sparkIds|, id);
      assert Front(crew, |crew.sparkIds|) == crew;
    }
  }

  lemma SetOwnerExactly(crew: Crew, spark: string, session: string, id: string)
    requires |crew.sparkIds| == |crew.owners| && id in crew.sparkIds
    ensures OwnerOf(SetOwner(crew, spark, session), id) == if id == spark then session else OwnerOf(crew, id)
  {
    FoundInside(crew.sparkIds, id);
  }

  // The session last spawned for a spark.
  function LastSpawn(log: seq<Event>, spark: string): Option<string> {
    if log == [] then None
    else
      var e := log[|log| - 1];
      if e.Spawned? && e.spark == spark then Some(e.session) else LastSpawn(log[..|log| - 1], spark)
  }

  lemma LastSpawnPlus(log: seq<Event>, e: Event, spark: string)
    ensures LastSpawn(log + [e], spark) == if e.Spawned? && e.spark == spark then Some(e.session) else LastSpawn(log, spark)
  {
    assert (log + [e])[..|log|] == log;
  }

  function Current(log: seq<Event>, first: Crew, id: string): string
    requires |first.sparkIds| == |first.owners| && id in first.sparkIds
  {
    match LastSpawn(log, id) case Some(session) => session case None => OwnerOf(first, id)
  }

  // Every remaining spark is shown with the session last spawned for it, or else its first owner.
  ghost predicate OwnersCurrent(s: State, first: Crew)
    requires |first.sparkIds| == |first.owners|
  {
    && |s.crew.sparkIds| == |s.crew.owners|
    && forall id :: id in s.crew.sparkIds ==>
         && id in first.sparkIds
         && OwnerOf(s.crew, id) == Current(s.log, first, id)
  }

  lemma SpawnKeepsOwners(s: State, spark: string, session: string, log: seq<Event>, first: Crew)
    requires |first.sparkIds| == |first.owners| && OwnersCurrent(s, first)
    requires log == s.log || exists e :: log == s.log + [e] && e.Released?
    ensures OwnersCurrent(s.(crew := SetOwner(s.crew, spark, session), log := log + [Spawned(spark, session)]), first)
    ensures OwnersCurrent(s.(log := log), first)
  {
    forall id | id in s.crew.sparkIds
      ensures OwnerOf(SetOwner(s.crew, spark, session), id) == Current(log + [Spawned(spark, session)], first, id)
      ensures OwnerOf(s.crew, id) == Current(log, first, id)
    {
      if e :| log == s.log + [e] && e.Released? { LastSpawnPlus(s.log, e, id); }
      SetOwnerExactly(s.crew, spark, session, id);
      LastSpawnPlus(log, Spawned(spark, session), id);
    }
  }

  lemma RespawnKeepsOwners(s: State, m: Member, i: nat, c: Cycle, cap: nat, first: Crew)
    requires |first.sparkIds| == |first.owners| && OwnersCurrent(s, first)
    ensures OwnersCurrent(Respawn(s, m, i, c, cap), first)
  {
    var log := s.log + if m.state.Stalled? then [Released(m.spark, m.state.session)] else [];
    assert s.log + [] == s.log;
    SpawnKeepsOwners(s, m.spark, if c.spawns(i).Some? then c.spawns(i).value else "", log, first);
  }

  lemma {:induction false} PassKeepsOwners(s: State, report: seq<Member>, n: nat, c: Cycle, cap: nat, first: Crew)
    requires |first.sparkIds| == |first.owners| && OwnersCurrent(s, first) && n <= |report|
    ensures OwnersCurrent(RespawnFirst(s, report, n, c, cap), first)
  {
    if n > 0 {
      PassKeepsOwners(s, report, n - 1, c, cap, first);
      var t := RespawnFirst(s, report, n - 1, c, cap);
      if t.alive { RespawnKeepsOwners(t, report[n - 1], n - 1, c, cap, first); }
    }
  }

  lemma PollKeepsOwners(s: State, k: nat, c: Cycle, cfg: Config, first: Crew)
    requires |first.sparkIds| == |first.owners| && OwnersCurrent(s, first)
    ensures OwnersCurrent(AfterPoll(s, k, c, cfg), first)
  {
    var t := AfterPoll(s, k, c, cfg);
    forall id | id in t.crew.sparkIds
      ensures id in first.sparkIds
      ensures OwnerOf(t.crew, id) == Current(t.log, first, id)
    {
      DropKeepsOwner(s.crew, c.listing, id);
      if t.log != s.log { LastSpawnPlus(s.log, t.log[|s.log|], id); }
    }
  }

  // Over any run, drops and respawns included, the crew handle shows each remaining spark's current owner.
  lemma {:induction false} RunKeepsOwners(s: State, k: nat, world: nat -> Cycle, cfg: Config, first: Crew)
    requires |first.sparkIds| == |first.owners| && OwnersCurrent(s, first) && k < Limit(cfg)
    ensures OwnersCurrent(Run(s, k, world, cfg).state, first)
    decreases Limit(cfg) - k
  {
    var polled, report := AfterPoll(s, k, world(k), cfg), ReportOf(s, world(k), cfg);
    PollKeepsOwners(s, k, world(k), cfg, first);
    if polled.alive && !AllDone(report) {
      var healed := Heal(polled, report, world(k), cfg.cap);
      if AnyNeedy(report) { PassKeepsOwners(polled, report, |report|, world(k), cfg.cap, first); }
      if healed.alive && k + 1 < cfg.maxCycles { RunKeepsOwners(healed, k + 1, world, cfg, first); }
    }
  }

  // ---- Corners -------------------------------------------------------------------------------------

  ghost predicate EveryPollReadable(world: nat -> Cycle, from: nat, to: nat) {
    forall k :: from <= k < to ==> world(k).views.Some?
  }

  lemma PollEmpty(c: Cycle, stallAfter: int)
    requires c.views.Some?
    ensures Poll(Crew([], []), c, stallAfter) == Some([])
  {
    assert |Poll(Crew([], []), c, stallAfter).value| == 0;
  }

  // An empty crew is never all done: the loop polls nothing until the cycles run out.
  lemma {:induction false} EmptyCrewRunsOut(s: State, k: nat, world: nat -> Cycle, cfg: Config)
    requires s.crew == Crew([], []) && s.alive && k < Limit(cfg) && EveryPollReadable(world, k, Limit(cfg))
    ensures var e := Run(s, k, world, cfg);
      && e.state.alive && e.report == [] && e.cycles == Limit(cfg)
      && Polls(e.state.log) == Polls(s.log) + (Limit(cfg) - k)
    decreases Limit(cfg) - k
  {
    assert Drop(s.crew, world(k).listing) == s.crew;
    LogPlus(s.log, Polled(k, []), "");
    if k + 1 < cfg.maxCycles { EmptyCrewRunsOut(AfterPoll(s, k, world(k), cfg), k + 1, world, cfg); }
  }

  lemma FirstIsMember(s: seq<string>)
    ensures s == [] || s[0] in s
  {
  }

  // So when every child was closed for another reason before the first listing, the command polls for
  // all its cycles and never spawns the Merger.
  lemma AllDroppedNeverMerges(crew: Crew, mergeSpark: Option<string>, merger: Option<string>, world: nat -> Cycle, cfg: Config)
    requires |crew.sparkIds| == |crew.owners| && EveryPollReadable(world, 0, Limit(cfg))
    requires world(0).listing.Some? && forall id :: id in crew.sparkIds ==>
               id in world(0).listing.value && Dropped(world(0).listing.value[id])
    ensures var s := Whole(crew, mergeSpark, merger, world, cfg);
      s.alive && Mergers(s.log) == 0 && Polls(s.log) == Limit(cfg)
  {
    var start := State(crew, map[], [], true);
    var kept := Drop(crew, world(0).listing);
    assert crew.sparkIds[..|crew.sparkIds|] == crew.sparkIds;
    FirstIsMember(kept.sparkIds);
    assert kept == Crew([], []);
    var polled := AfterPoll(start, 0, world(0), cfg);
    LogPlus([], Polled(0, []), "");
    PollEmpty(world(0), cfg.stallAfter);
    assert polled.log == [] + [Polled(0, [])];
    if 1 < cfg.maxCycles { EmptyCrewRunsOut(polled, 1, world, cfg); }
    RunIsSafe(crew, mergeSpark, merger, world, cfg);
    MergerExactly(crew, mergeSpark, merger, world, cfg);
  }

  // An all-done report means that every remaining child closed `completed` if and only if no child that
  // the listing left in the crew is closed otherwise by the time of the poll.
  lemma AllDoneMeansCompletedExactly(s: State, c: Cycle, cfg: Config)
    requires |s.crew.sparkIds| == |s.crew.owners| && AllDone(ReportOf(s, c, cfg))
    ensures var report, ids := ReportOf(s, c, cfg), Drop(s.crew, c.listing).sparkIds;
      (forall i :: 0 <= i < |report| ==> report[i].state == Completed) <==>
      (forall id :: id in ids ==> c.views.Some? && id in c.views.value && !Dropped(c.views.value[id]))
  {
    var crew, report := Drop(s.crew, c.listing), ReportOf(s, c, cfg);
    forall i | 0 <= i < |report|
      ensures c.views.Some? && crew.sparkIds[i] in c.views.value
      ensures report[i].state == Completed <==> !Dropped(c.views.value[crew.sparkIds[i]])
    {
      PolledMembers(crew, c, cfg.stallAfter, i);
      assert Done(report[i].state);
    }
    if forall i :: 0 <= i < |report| ==> report[i].state == Completed {
      forall id | id in crew.sparkIds ensures c.views.Some? && id in c.views.value && !Dropped(c.views.value[id]) {
        var i :| 0 <= i < |crew.sparkIds| && crew.sparkIds[i] == id;
        assert report[i].state == Completed;
      }
    }
    if forall id :: id in crew.sparkIds ==> c.views.Some? && id in c.views.value && !Dropped(c.views.value[id]) {
      forall i | 0 <= i < |report| ensures report[i].state == Completed {
        assert crew.sparkIds[i] in crew.sparkIds;
      }
    }
  }

  // A spark that is open in the listing and closed as obsolete before the poll.
  function ClosedInBetween(): Cycle {
    Cycle(Some(map["a" := Open(None, false)]), Some(map["a" := Closed(Some("obsolete"))]), 0,
          (i: nat) => true, (i: nat) => None)
  }

  // So a Merger can follow a report in which nothing was completed.
  lemma MergerWithNothingCompleted()
    ensures var s := Whole(Crew(["a"], ["h"]), Some("m"), Some("merger"), (k: nat) => ClosedInBetween(), Config(120, 3, 120));
      s.log == [Polled(0, [Member("a", ClosedOther("obsolete"))]), MergerSpawned("m", "merger")]
  {
    var c := ClosedInBetween();
    var crew := Crew(["a"], ["h"]);
    KeepsOpen(crew, c.listing.value);
    assert crew.sparkIds[0] in c.views.value;
    assert |Poll(crew, c, 120).value| == 1;
    PolledMembers(crew, c, 120, 0);
    assert |"obsolete"| != |"completed"|;
    assert StateOf(c.views.value["a"], 0, 120) == ClosedOther("obsolete");
    assert Poll(crew, c, 120).value == [Member("a", ClosedOther("obsolete"))];
  }

  lemma KeepsOpen(crew: Crew, listing: map<string, View>)
    requires |crew.sparkIds| == |crew.owners| == 1 && crew.sparkIds[0] in listing && listing[crew.sparkIds[0]].Open?
    ensures Drop(crew, Some(listing)) == crew
  {
    assert KeepFirst(crew, listing, 0) == Crew([], []);
    assert Drop(crew, Some(listing)) == KeepFirst(crew, listing, 1);
    assert [] + [crew.sparkIds[0]] == crew.sparkIds && [] + [crew.owners[0]] == crew.owners;
  }
}
