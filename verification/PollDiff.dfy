// src/app.rs: turning the whole sets that each 3-second poll yields into edge events: Flash
// embers for newly blocked sparks, Flare embers for newly failing contracts, Glow embers for
// finished assignments, and IRC channel announcements for open epics.
module PollDiff {
  import opened Prelude

  datatype Spark = Spark(id: string, sparkType: string, status: string)

  predicate Blocked(s: Spark) { s.status == "blocked" }

  predicate OpenEpic(s: Spark) { s.sparkType == "epic" && s.status != "closed" }

  function BlockedIds(sparks: seq<Spark>): seq<string> {
    if sparks == [] then []
    else BlockedIds(sparks[..|sparks| - 1])
         + if Blocked(sparks[|sparks| - 1]) then [sparks[|sparks| - 1].id] else []
  }

  function OpenEpics(sparks: seq<Spark>): set<string> {
    set s | s in sparks && OpenEpic(s) :: s.id
  }

  function ToSet<K>(s: seq<K>): set<K> {
    set x | x in s
  }

  // The members of `ids` that the previous poll did not have, in order.
  function NotIn<K(==)>(ids: seq<K>, prev: set<K>): seq<K> {
    if ids == [] then []
    else NotIn(ids[..|ids| - 1], prev) + if ids[|ids| - 1] in prev then [] else [ids[|ids| - 1]]
  }

  // ---- Edge detection over a run of polls ------------------------------------------------------

  // What the workshop remembers of one source: the last set and whether a baseline was taken.
  datatype Memory<K> = Memory(prev: set<K>, seen: bool)

  datatype Poll<K> = Poll(ids: seq<K>, pool: bool)    // `pool`: the workshop has its database

  function Remember<K>(polls: seq<Poll<K>>): Memory<K> {
    if polls == [] then Memory({}, false) else Memory(ToSet(polls[|polls| - 1].ids), true)
  }

  // Ids for which poll `m -> p` creates a "newly there" ember (Flash, Flare).
  function Rises<K(==)>(m: Memory<K>, p: Poll<K>): seq<K> {
    if m.seen && p.pool then NotIn(p.ids, m.prev) else []
  }

  // Ids for which it creates a "no longer there" ember (Glow).
  function Falls<K(==)>(m: Memory<K>, p: Poll<K>): set<K> {
    if m.seen && p.pool then m.prev - ToSet(p.ids) else {}
  }

  lemma {:induction false} NotInMembers<K>(ids: seq<K>, prev: set<K>)
    requires Distinct(ids)
    ensures Distinct(NotIn(ids, prev))
    ensures forall x :: x in NotIn(ids, prev) <==> x in ids && x !in prev
  {
    if ids != [] {
      var init, last := ids[..|ids| - 1], ids[|ids| - 1];
      NotInMembers(init, prev);
      assert ids == init + [last];
      assert last !in init;
    }
  }

  // After the first poll embers are exactly the edges, one each; the baseline makes none.
  lemma EmbersAreEdges<K>(polls: seq<Poll<K>>, k: nat, x: K)
    requires k < |polls| && Distinct(polls[k].ids)
    ensures var m := Remember(polls[..k]);
      && Distinct(Rises(m, polls[k]))
      && (x in Rises(m, polls[k]) <==>
            k > 0 && polls[k].pool && x in polls[k].ids && x !in polls[k - 1].ids)
      && (x in Falls(m, polls[k]) <==>
            k > 0 && polls[k].pool && x !in polls[k].ids && x in polls[k - 1].ids)
  {
    NotInMembers(polls[k].ids, Remember(polls[..k]).prev);
    if k > 0 { assert polls[..k][k - 1] == polls[k - 1]; }
  }

  function Num(b: bool): int {
    if b then 1 else 0
  }

  function RiseCount<K(==)>(polls: seq<Poll<K>>, x: K): int {
    if polls == [] then 0
    else var init := polls[..|polls| - 1];
         RiseCount(init, x) + Num(x in Rises(Remember(init), polls[|polls| - 1]))
  }

  function FallCount<K(==)>(polls: seq<Poll<K>>, x: K): int {
    if polls == [] then 0
    else var init := polls[..|polls| - 1];
         FallCount(init, x) + Num(x in Falls(Remember(init), polls[|polls| - 1]))
  }

  // The changes that made no ember because the workshop had no database at the poll.
  function Unseen<K(==)>(polls: seq<Poll<K>>, x: K): int {
    if |polls| <= 1 then 0
    else var n := |polls| - 1;
         Unseen(polls[..n], x) + if polls[n].pool then 0 else Num(x in polls[n].ids) - Num(x in polls[n - 1].ids)
  }

  // Nothing is counted twice or missed: rises minus falls, and what went unseen, is the change since the
  // baseline; and nothing goes unseen when the database is there at every poll after it.
  lemma {:induction false} RisesMinusFalls<K>(polls: seq<Poll<K>>, x: K)
    requires polls != [] && forall k :: 0 <= k < |polls| ==> Distinct(polls[k].ids)
    ensures RiseCount(polls, x) - FallCount(polls, x) + Unseen(polls, x)
            == Num(x in polls[|polls| - 1].ids) - Num(x in polls[0].ids)
    ensures (forall k :: 0 < k < |polls| ==> polls[k].pool) ==> Unseen(polls, x) == 0
  {
    var n := |polls| - 1;
    EmbersAreEdges(polls, n, x);
    if n > 0 {
      RisesMinusFalls(polls[..n], x);
    }
  }

  // ---- Epic announcements over a run of loads ----------------------------------------------------

  datatype Load = Load(sparks: seq<Spark>, ready: bool)   // `ready`: the IRC runtime is installed

  predicate OpenAt(loads: seq<Load>, k: nat, x: string)
    requires k < |loads|
  {
    x in OpenEpics(loads[k].sparks)
  }

  // Epic ids pushed to `new_epics` by the insertion loop, in order.
  function NewEpics(known: set<string>, sparks: seq<Spark>): seq<string> {
    if sparks == [] then []
    else
      var rest := NewEpics(known, sparks[..|sparks| - 1]);
      var s := sparks[|sparks| - 1];
      if OpenEpic(s) && s.id !in known && s.id !in rest then rest + [s.id] else rest
  }

  function Announced(known: set<string>, load: Load): seq<string> {
    if load.ready then NewEpics(known, load.sparks) else []
  }

  // The known set after a load: insertions if ready, then `retain` of what is still open.
  function KnownAfter(known: set<string>, load: Load): set<string> {
    (known + ToSet(Announced(known, load))) * OpenEpics(load.sparks)
  }

  function Known(loads: seq<Load>): set<string> {
    if loads == [] then {} else KnownAfter(Known(loads[..|loads| - 1]), loads[|loads| - 1])
  }

  lemma {:induction false} NewEpicsMembers(known: set<string>, sparks: seq<Spark>)
    ensures Distinct(NewEpics(known, sparks))
    ensures ToSet(NewEpics(known, sparks)) == OpenEpics(sparks) - known
  {
    if sparks != [] {
      var init, s := sparks[..|sparks| - 1], sparks[|sparks| - 1];
      NewEpicsMembers(known, init);
      assert sparks == init + [s];
      assert OpenEpics(sparks) == OpenEpics(init) + if OpenEpic(s) then {s.id} else {};
      assert forall x :: x in NewEpics(known, init) <==> x in ToSet(NewEpics(known, init));
    }
  }

  // Since some ready load, `x` has been open at every load up to the last of the first `n`.
  ghost predicate OpenSinceReady(loads: seq<Load>, n: nat, x: string)
    requires n <= |loads|
  {
    exists j :: 0 <= j < n && loads[j].ready && forall m :: j <= m < n ==> OpenAt(loads, m, x)
  }

  lemma OpenSinceReadyNext(loads: seq<Load>, n: nat, x: string)
    requires 0 < n <= |loads|
    ensures OpenSinceReady(loads, n, x) <==>
            OpenAt(loads, n - 1, x) && (loads[n - 1].ready || OpenSinceReady(loads, n - 1, x))
  {
    if OpenSinceReady(loads, n - 1, x) && OpenAt(loads, n - 1, x) {
      var j :| 0 <= j < n - 1 && loads[j].ready && forall m :: j <= m < n - 1 ==> OpenAt(loads, m, x);
      assert forall m :: j <= m < n ==> OpenAt(loads, m, x);
    }
    if OpenSinceReady(loads, n, x) {
      var j :| 0 <= j < n && loads[j].ready && forall m :: j <= m < n ==> OpenAt(loads, m, x);
      assert OpenAt(loads, n - 1, x);
      assert j < n - 1 ==> OpenSinceReady(loads, n - 1, x);
    }
  }

  lemma {:induction false} KnownIsOpenSinceReady(loads: seq<Load>, n: nat, x: string)
    requires n <= |loads|
    ensures x in Known(loads[..n]) <==> OpenSinceReady(loads, n, x)
  {
    if n > 0 {
      var before := loads[..n - 1];
      assert loads[..n][..n - 1] == before;
      KnownIsOpenSinceReady(loads, n - 1, x);
      NewEpicsMembers(Known(before), loads[n - 1].sparks);
      assert x in ToSet(NewEpics(Known(before), loads[n - 1].sparks)) <==> OpenAt(loads, n - 1, x) && x !in Known(before);
      OpenSinceReadyNext(loads, n, x);
    }
  }

  // The known set never holds a closed epic, and after a ready load it holds every open one.
  lemma KnownWithinOpen(loads: seq<Load>)
    requires loads != []
    ensures Known(loads) <= OpenEpics(loads[|loads| - 1].sparks)
    ensures loads[|loads| - 1].ready ==> Known(loads) == OpenEpics(loads[|loads| - 1].sparks)
  {
    NewEpicsMembers(Known(loads[..|loads| - 1]), loads[|loads| - 1].sparks);
  }

  // Within a maximal stretch of loads in which `x` is open it is announced at the first ready
  // load of the stretch, once, and at no other.
  lemma AnnouncedAtFirstReady(loads: seq<Load>, a: nat, k: nat, x: string)
    requires a <= k < |loads|
    requires forall m :: a <= m <= k ==> OpenAt(loads, m, x)
    requires a == 0 || !OpenAt(loads, a - 1, x)
    ensures Distinct(Announced(Known(loads[..k]), loads[k]))
    ensures x in Announced(Known(loads[..k]), loads[k])
            <==> loads[k].ready && forall j :: a <= j < k ==> !loads[j].ready
  {
    var known := Known(loads[..k]);
    NewEpicsMembers(known, loads[k].sparks);
    KnownIsOpenSinceReady(loads, k, x);
    assert x in NewEpics(known, loads[k].sparks) <==> x in ToSet(NewEpics(known, loads[k].sparks));
    assert OpenAt(loads, k, x);
    if OpenSinceReady(loads, k, x) {
      var j :| 0 <= j < k && loads[j].ready && forall m :: j <= m < k ==> OpenAt(loads, m, x);
      assert a <= j;
    }
    if j :| a <= j < k && loads[j].ready {
      assert forall m :: j <= m < k ==> OpenAt(loads, m, x);
    }
  }

  function AnnounceCount(loads: seq<Load>, x: string, a: nat, b: nat): nat
    requires a <= b <= |loads|
    decreases b - a
  {
    if a == b then 0
    else AnnounceCount(loads, x, a, b - 1) + if x in Announced(Known(loads[..b - 1]), loads[b - 1]) then 1 else 0
  }

  // Loads a .. b-1 are a stretch: one announcement if the runtime is ready at any of them, else none.
  lemma {:induction false} AnnouncedOncePerStretch(loads: seq<Load>, x: string, a: nat, b: nat)
    requires a <= b <= |loads|
    requires forall m :: a <= m < b ==> OpenAt(loads, m, x)
    requires a == 0 || !OpenAt(loads, a - 1, x)
    ensures AnnounceCount(loads, x, a, b) == if exists j :: a <= j < b && loads[j].ready then 1 else 0
    decreases b - a
  {
    if a < b {
      AnnouncedOncePerStretch(loads, x, a, b - 1);
      AnnouncedAtFirstReady(loads, a, b - 1, x);
    }
  }

  // A load makes a Flash for each spark that is blocked and was not at the last load, none at the first
  // and none without a database.
  lemma FlashExactly(prev: set<string>, seen: bool, pool: bool, loaded: seq<Spark>, x: string)
    ensures var blocked := exists i :: 0 <= i < |loaded| && loaded[i].id == x && loaded[i].status == "blocked";
      && (x in Rises(Memory(prev, seen), Poll(BlockedIds(loaded), pool)) <==> blocked && x !in prev && seen && pool)
      && (x in Remember([Poll(BlockedIds(loaded), pool)]).prev <==> blocked)
  {
    BlockedExactly(loaded, x);
    NotInExactly(BlockedIds(loaded), prev, x);
  }

  // It announces each open epic not known yet, once the runtime is ready, and knows from then on those of
  // the announced and known ones that are open.
  lemma AnnounceExactly(known: set<string>, loaded: seq<Spark>, ready: bool, x: string)
    ensures var open := exists i :: 0 <= i < |loaded| && loaded[i].id == x && loaded[i].sparkType == "epic" && loaded[i].status != "closed";
      && (x in Announced(known, Load(loaded, ready)) <==> open && x !in known && ready)
      && (x in KnownAfter(known, Load(loaded, ready)) <==> open && (x in known || ready))
  {
    NewEpicsMembers(known, loaded);
    assert x in NewEpics(known, loaded) <==> x in ToSet(NewEpics(known, loaded));
    OpenExactly(loaded, x);
  }

  lemma OpenExactly(loaded: seq<Spark>, x: string)
    ensures x in OpenEpics(loaded) <==>
      exists i :: 0 <= i < |loaded| && loaded[i].id == x && loaded[i].sparkType == "epic" && loaded[i].status != "closed"
  {
    if x in OpenEpics(loaded) {
      var s :| s in loaded && OpenEpic(s) && s.id == x;
      var i :| 0 <= i < |loaded| && loaded[i] == s;
    }
  }

  lemma {:induction false} BlockedExactly(loaded: seq<Spark>, x: string)
    ensures x in BlockedIds(loaded) <==> exists i :: 0 <= i < |loaded| && loaded[i].id == x && loaded[i].status == "blocked"
  {
    if loaded != [] {
      var init := loaded[..|loaded| - 1];
      BlockedExactly(init, x);
      assert forall i :: 0 <= i < |init| ==> init[i] == loaded[i];
    }
  }

  lemma {:induction false} NotInExactly<K>(ids: seq<K>, prev: set<K>, x: K)
    ensures x in NotIn(ids, prev) <==> x in ids && x !in prev
  {
    if ids != [] {
      NotInExactly(ids[..|ids| - 1], prev, x);
      assert ids == ids[..|ids| - 1] + [ids[|ids| - 1]];
    }
  }

  // ---- The handlers ------------------------------------------------------------------------------

  class Workshop {
    var prevBlockedSparkIds: set<string>
    var prevFailingContractIds: set<int>
    var prevActiveAssignmentIds: set<int>
    var sparksBaselineSeen: bool
    var contractsBaselineSeen: bool
    var assignmentsBaselineSeen: bool
    var ircKnownEpicIds: set<string>
    var sparks: seq<Spark>
    var hasPool: bool

    // Returns the Flash embers to create and the epics to announce.
    method SparksLoaded(loaded: seq<Spark>, runtimeReady: bool) returns (flashes: seq<string>, newEpics: seq<string>)
      modifies this
      ensures flashes == old(Rises(Memory(prevBlockedSparkIds, sparksBaselineSeen), Poll(BlockedIds(loaded), hasPool)))
      ensures Memory(prevBlockedSparkIds, sparksBaselineSeen) == Remember([Poll(BlockedIds(loaded), hasPool)])
      ensures newEpics == old(Announced(ircKnownEpicIds, Load(loaded, runtimeReady)))
      ensures ircKnownEpicIds == old(KnownAfter(ircKnownEpicIds, Load(loaded, runtimeReady)))
      ensures sparks == loaded && hasPool == old(hasPool)
      ensures prevFailingContractIds == old(prevFailingContractIds) && contractsBaselineSeen == old(contractsBaselineSeen)
      ensures prevActiveAssignmentIds == old(prevActiveAssignmentIds) && assignmentsBaselineSeen == old(assignmentsBaselineSeen)
    {
      flashes := FlashEmbers(loaded);
      prevBlockedSparkIds := ToSet(BlockedIds(loaded));
      sparksBaselineSeen := true;
      newEpics := NoteNewEpics(loaded, runtimeReady);
      sparks := loaded;
    }

    method FlashEmbers(loaded: seq<Spark>) returns (flashes: seq<string>)
      ensures flashes == Rises(Memory(prevBlockedSparkIds, sparksBaselineSeen), Poll(BlockedIds(loaded), hasPool))
    {
      flashes := [];
      if sparksBaselineSeen && hasPool {
        for i := 0 to |loaded|
          invariant flashes == NotIn(BlockedIds(loaded[..i]), prevBlockedSparkIds)
        {
          var sp := loaded[i];
          assert loaded[..i + 1][..i] == loaded[..i];
          assert !Blocked(sp) ==> BlockedIds(loaded[..i + 1]) == BlockedIds(loaded[..i]);
          if Blocked(sp) {
            ghost var before := BlockedIds(loaded[..i]);
            assert BlockedIds(loaded[..i + 1]) == before + [sp.id];
            assert (before + [sp.id])[..|before|] == before;
            if sp.id !in prevBlockedSparkIds {
              flashes := flashes + [sp.id];
            }
          }
        }
        assert loaded[..|loaded|] == loaded;
      }
    }

    // Inserts newly seen open epics into the known set while the runtime is ready, then forgets
    // the ones that are no longer open.
    method NoteNewEpics(loaded: seq<Spark>, runtimeReady: bool) returns (newEpics: seq<string>)
      modifies this`ircKnownEpicIds
      ensures newEpics == old(Announced(ircKnownEpicIds, Load(loaded, runtimeReady)))
      ensures ircKnownEpicIds == old(KnownAfter(ircKnownEpicIds, Load(loaded, runtimeReady)))
    {
      newEpics := [];
      ghost var known := ircKnownEpicIds;
      for i := 0 to |loaded|
        invariant newEpics == if runtimeReady then NewEpics(known, loaded[..i]) else []
        invariant ircKnownEpicIds == known + ToSet(newEpics)
      {
        var sp := loaded[i];
        assert loaded[..i + 1][..i] == loaded[..i];
        if OpenEpic(sp) && runtimeReady && sp.id !in ircKnownEpicIds {
          ircKnownEpicIds := ircKnownEpicIds + {sp.id};
          newEpics := newEpics + [sp.id];
        }
      }
      assert loaded[..|loaded|] == loaded;
      ircKnownEpicIds := ircKnownEpicIds * OpenEpics(loaded);
    }

    method FailingContractsLoaded(list: seq<int>) returns (flares: seq<int>)
      modifies this`prevFailingContractIds, this`contractsBaselineSeen
      ensures flares == old(Rises(Memory(prevFailingContractIds, contractsBaselineSeen), Poll(list, hasPool)))
      ensures Memory(prevFailingContractIds, contractsBaselineSeen) == Remember([Poll(list, hasPool)])
    {
      flares := [];
      if contractsBaselineSeen && hasPool {
        for i := 0 to |list|
          invariant flares == NotIn(list[..i], prevFailingContractIds)
        {
          assert list[..i + 1][..i] == list[..i];
          if list[i] !in prevFailingContractIds {
            flares := flares + [list[i]];
          }
        }
        assert list[..|list|] == list;
      }
      prevFailingContractIds := ToSet(list);
      contractsBaselineSeen := true;
    }

    method HandAssignmentsLoaded(list: seq<int>) returns (glows: set<int>)
      modifies this`prevActiveAssignmentIds, this`assignmentsBaselineSeen
      ensures glows == old(Falls(Memory(prevActiveAssignmentIds, assignmentsBaselineSeen), Poll(list, hasPool)))
      ensures Memory(prevActiveAssignmentIds, assignmentsBaselineSeen) == Remember([Poll(list, hasPool)])
    {
      var current := ToSet(list);
      glows := {};
      if assignmentsBaselineSeen && hasPool {
        glows := GlowEmbers(prevActiveAssignmentIds, current);
      }
      prevActiveAssignmentIds := current;
      assignmentsBaselineSeen := true;
    }
  }

  // One ember for each previously active assignment that is gone; a set has no order of its own.
  method GlowEmbers(prev: set<int>, current: set<int>) returns (glows: set<int>)
    ensures glows == prev - current
  {
    glows := {};
    var rest := prev;
    while exists x :: x in rest
      invariant rest <= prev
      invariant glows == (prev - rest) - current
      decreases rest
    {
      var prevId :| prevId in rest;
      if prevId !in current {
        glows := glows + {prevId};
      }
      rest := rest - {prevId};
    }
  }
}
