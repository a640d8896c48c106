// src/app.rs: the workshop list, and the handover of the ngIRCd supervisor and of the IRC
// runtime from the tasks that start them to the workshop that will stop them.
//
// Both tasks share an `Arc<Mutex<Option<_>>>` slot with the app. The owners of a slot are kept
// as a set of named `Arc` clones, so that `Arc::strong_count` is the size of that set.
module Lifecycle {
  import opened Prelude

  type Uuid = nat

  datatype Kind = Ircd | Irc

  datatype Key = Key(id: Uuid, kind: Kind)

  datatype Owner =
    | App                  // the workshop's `irc_runtime` field, or the `ircd_supervisors` entry
    | Starter              // the spawned start task's clone
    | Announcer(n: nat)    // a spawned channel-announcement task's clone

  // How far the start task of a slot has come.
  datatype Phase =
    | Idle        // not spawned
    | Starting    // awaiting `start`
    | InHand      // `start` succeeded; the process is a local of its start task
    | Done

  datatype Slot = Slot(
    owners: set<Owner>,
    full: bool,          // the mutex holds the started process
    poisoned: bool,
    phase: Phase,
    started: bool,       // `start` produced a process
    shutdowns: nat)      // how often that process was told to shut down

  datatype Workshop = Workshop(id: Uuid, directory: string)

  datatype State = State(
    workshops: seq<Workshop>,
    active: Option<nat>,
    supervisors: set<Uuid>,     // keys of `ircd_supervisors`
    slots: map<Key, Slot>,
    initPending: set<Uuid>,     // workshops whose init task has not reported yet
    nextId: nat)

  function Initial(): State {
    State([], None, {}, map[], {}, 0)
  }

  function StrongCount(s: Slot): nat {
    |s.owners|
  }

  function Ids(ws: seq<Workshop>): set<Uuid> {
    set w | w in ws :: w.id
  }

  function PositionOfDirectory(ws: seq<Workshop>, directory: string): (r: Option<nat>)
    ensures r.Some? ==> r.value < |ws| && ws[r.value].directory == directory
    ensures r.None? ==> forall i :: 0 <= i < |ws| ==> ws[i].directory != directory
  {
    if ws == [] then None
    else if ws[0].directory == directory then Some(0)
    else match PositionOfDirectory(ws[1..], directory) case None => None case Some(i) => Some(i + 1)
  }

  function PositionOfId(ws: seq<Workshop>, id: Uuid): (r: Option<nat>)
    ensures r.Some? ==> r.value < |ws| && ws[r.value].id == id
    ensures r.None? ==> id !in Ids(ws)
  {
    if ws == [] then None
    else if ws[0].id == id then Some(0)
    else match PositionOfId(ws[1..], id) case None => None case Some(i) => Some(i + 1)
  }

  // ---- UI steps -----------------------------------------------------------------------------

  function OpenPath(st: State, directory: string, isDir: bool): State {
    if !isDir then st
    else match PositionOfDirectory(st.workshops, directory)
      case Some(existing) => st.(active := Some(existing))
      case None =>
        State(st.workshops + [Workshop(st.nextId, directory)], Some(|st.workshops|), st.supervisors,
              st.slots[Key(st.nextId, Irc) := Slot({App}, false, false, Idle, false, 0)],
              st.initPending + {st.nextId}, st.nextId + 1)
  }

  function Select(st: State, i: nat): State {
    if i < |st.workshops| then st.(active := Some(i)) else st
  }

  // `active_workshop` after `do_close_workshop` removed position `idx`, `left` workshops remaining.
  function ActiveAfterClose(active: Option<nat>, idx: nat, left: nat): Option<nat> {
    if left == 0 then None
    else if active.Some? && active.value > idx then Some(active.value - 1)
    else if active.Some? && active.value == idx then Some(if idx <= left - 1 then idx else left - 1)
    else active
  }

  // The same after `handle_workshop_init_failed`, which steps back also when `pos` was active.
  function ActiveAfterInitFailed(active: Option<nat>, pos: nat, left: nat): Option<nat> {
    if left == 0 then None
    else if active.Some? && active.value >= pos && active.value > 0 then Some(active.value - 1)
    else active
  }

  // The app's clone goes away; whatever is still in the slot then belongs to nobody in the app.
  function DropAppClone(s: Slot): Slot {
    s.(owners := s.owners - {App})
  }

  // `slot.take()` followed by `shutdown` of what was taken.
  function TakeAndShutdown(s: Slot): Slot {
    s.(full := false, shutdowns := s.shutdowns + if s.full then 1 else 0)
  }

  // The IRC slot is read through `lock().ok()`, so a poisoned lock hides its content.
  function CloseIrc(s: Slot): Slot {
    DropAppClone(if s.poisoned then s else TakeAndShutdown(s))
  }

  // The supervisor slot is recovered from a poisoned lock.
  function CloseIrcd(s: Slot): Slot {
    DropAppClone(TakeAndShutdown(s))
  }

  function Close(st: State, idx: nat): State
    requires idx < |st.workshops|
  {
    var id := st.workshops[idx].id;
    var irc, ircd := Key(id, Irc), Key(id, Ircd);
    var slots := if irc in st.slots then st.slots[irc := CloseIrc(st.slots[irc])] else st.slots;
    var slots' := if id in st.supervisors && ircd in slots then slots[ircd := CloseIrcd(slots[ircd])] else slots;
    st.(workshops := RemoveAt(st.workshops, idx),
        active := ActiveAfterClose(st.active, idx, |st.workshops| - 1),
        supervisors := st.supervisors - {id},
        slots := slots')
  }

  // An index past the end closes nothing.
  function CloseAt(st: State, idx: nat): State {
    if idx < |st.workshops| then Close(st, idx) else st
  }

  function InitFailed(st: State, id: Uuid): State {
    var reported := st.(initPending := st.initPending - {id});
    match PositionOfId(st.workshops, id)
    case None => reported
    case Some(pos) =>
      var irc := Key(id, Irc);
      reported.(workshops := RemoveAt(st.workshops, pos),
                active := ActiveAfterInitFailed(st.active, pos, |st.workshops| - 1),
                slots := if irc in st.slots then st.slots[irc := DropAppClone(st.slots[irc])] else st.slots)
  }

  // `hasSpec`: there is a daemon to supervise; `hasIrc`: an IRC server is configured.
  function Ready(st: State, id: Uuid, hasSpec: bool, hasIrc: bool): State {
    var reported := st.(initPending := st.initPending - {id});
    if id !in Ids(st.workshops) then reported
    else
      var irc := Key(id, Irc);
      var slots := if hasSpec
                   then st.slots[Key(id, Ircd) := Slot({App, Starter}, false, false, Starting, false, 0)]
                   else st.slots;
      var slots' := if hasIrc && irc in slots
                    then slots[irc := slots[irc].(owners := slots[irc].owners + {Starter}, phase := Starting)]
                    else slots;
      reported.(supervisors := if hasSpec then st.supervisors + {id} else st.supervisors, slots := slots')
  }

  // A spark load: a clone escapes into a task only if the runtime is there and an epic is new.
  function SparksLoaded(st: State, id: Uuid, newEpics: bool, n: nat): State {
    var irc := Key(id, Irc);
    if id in Ids(st.workshops) && irc in st.slots && st.slots[irc].full && !st.slots[irc].poisoned && newEpics
    then st.(slots := st.slots[irc := st.slots[irc].(owners := st.slots[irc].owners + {Announcer(n)})])
    else st
  }

  // ---- Task steps ---------------------------------------------------------------------------

  function StartReturned(s: Slot, ok: bool): Slot {
    if ok then s.(phase := InHand, started := true)
    else s.(phase := Done, owners := s.owners - {Starter})
  }

  // The strong-count check with the install it guards.
  function Install(s: Slot): Slot {
    var settled := if StrongCount(s) == 1 then s.(shutdowns := s.shutdowns + 1) else s.(full := true);
    settled.(phase := Done, owners := s.owners - {Starter})
  }

  datatype Event =
    | EOpenPath(directory: string, isDir: bool)
    | ESelect(i: nat)
    | EClose(idx: nat)
    | EInitFailed(id: Uuid)
    | EReady(id: Uuid, hasSpec: bool, hasIrc: bool)
    | ESparksLoaded(id: Uuid, newEpics: bool, n: nat)
    | EStartReturned(key: Key, ok: bool)
    | EInstall(key: Key)
    | EAnnouncerDone(id: Uuid, n: nat)
    | EPoison(key: Key)     // a holder of the lock panics

  ghost predicate Enabled(st: State, e: Event) {
    match e
    case EOpenPath(_, _) => true
    case ESelect(_) => true
    case EClose(_) => true
    case EInitFailed(id) => id in st.initPending
    case EReady(id, _, _) => id in st.initPending
    case ESparksLoaded(id, _, n) => Key(id, Irc) in st.slots ==> Announcer(n) !in st.slots[Key(id, Irc)].owners
    case EStartReturned(key, _) => key in st.slots && st.slots[key].phase == Starting
    case EInstall(key) => key in st.slots && st.slots[key].phase == InHand
    case EAnnouncerDone(id, n) => Key(id, Irc) in st.slots && Announcer(n) in st.slots[Key(id, Irc)].owners
    case EPoison(key) => key in st.slots && st.slots[key].owners != {}
  }

  ghost function Step(st: State, e: Event): State
    requires Enabled(st, e)
  {
    match e
    case EOpenPath(directory, isDir) => OpenPath(st, directory, isDir)
    case ESelect(i) => Select(st, i)
    case EClose(idx) => CloseAt(st, idx)
    case EInitFailed(id) => InitFailed(st, id)
    case EReady(id, hasSpec, hasIrc) => Ready(st, id, hasSpec, hasIrc)
    case ESparksLoaded(id, newEpics, n) => SparksLoaded(st, id, newEpics, n)
    case EStartReturned(key, ok) => st.(slots := st.slots[key := StartReturned(st.slots[key], ok)])
    case EInstall(key) => st.(slots := st.slots[key := Install(st.slots[key])])
    case EAnnouncerDone(id, n) =>
      var s := st.slots[Key(id, Irc)];
      st.(slots := st.slots[Key(id, Irc) := s.(owners := s.owners - {Announcer(n)})])
    case EPoison(key) => st.(slots := st.slots[key := st.slots[key].(poisoned := true)])
  }

  ghost predicate Valid(st: State, events: seq<Event>)
    decreases |events|
  {
    events == [] || (Enabled(st, events[0]) && Valid(Step(st, events[0]), events[1..]))
  }

  ghost function Run(st: State, events: seq<Event>): State
    requires Valid(st, events)
    decreases |events|
  {
    if events == [] then st else Run(Step(st, events[0]), events[1..])
  }

  // ---- The invariant ------------------------------------------------------------------------

  // Whether closing an open workshop would still find this slot.
  predicate InReach(st: State, key: Key) {
    match key.kind
    case Irc => key.id in Ids(st.workshops)
    case Ircd => key.id in st.supervisors
  }

  function Num(b: bool): nat {
    if b then 1 else 0
  }

  ghost predicate SlotInv(st: State, key: Key)
    requires key in st.slots
  {
    var s := st.slots[key];
    && (App in s.owners <==> InReach(st, key))
    && (Starter in s.owners <==> s.phase == Starting || s.phase == InHand)
    && (forall o :: o in s.owners && o.Announcer? ==> key.kind == Irc && s.phase == Done)
    && (s.full ==> s.phase == Done)
    && (s.started ==> s.phase == InHand || s.phase == Done)
    // Every process that started is in its start task's hand, in the slot, or shut down: once.
    && Num(s.phase == InHand) + Num(s.full) + s.shutdowns == Num(s.started)
    && (s.full && !InReach(st, key) ==> key.kind == Irc && s.poisoned)
  }

  ghost predicate ListInv(ws: seq<Workshop>, active: Option<nat>) {
    && (forall i, j :: 0 <= i < j < |ws| ==> ws[i].id != ws[j].id)
    && (forall i, j :: 0 <= i < j < |ws| ==> ws[i].directory != ws[j].directory)
    && (active.None? <==> ws == [])
    && (active.Some? ==> active.value < |ws|)
  }

  ghost predicate InitInv(st: State, id: Uuid) {
    && id < st.nextId
    && id !in st.supervisors
    && Key(id, Ircd) !in st.slots
    && Key(id, Irc) in st.slots && st.slots[Key(id, Irc)].phase == Idle
  }

  ghost predicate Inv(st: State) {
    && ListInv(st.workshops, st.active)
    && st.supervisors <= Ids(st.workshops)
    && (forall id :: id in Ids(st.workshops) ==> id < st.nextId && Key(id, Irc) in st.slots)
    && (forall id :: id in st.supervisors ==> Key(id, Ircd) in st.slots)
    && (forall key :: key in st.slots ==> key.id < st.nextId && SlotInv(st, key))
    && (forall id :: id in st.initPending ==> InitInv(st, id))
  }

  lemma IdsAfterRemove(ws: seq<Workshop>, i: nat)
    requires i < |ws|
    requires forall i, j :: 0 <= i < j < |ws| ==> ws[i].id != ws[j].id
    ensures Ids(RemoveAt(ws, i)) == Ids(ws) - {ws[i].id}
  {
    var r := RemoveAt(ws, i);
    forall w | w in ws && w.id != ws[i].id ensures w in r {
      var k :| 0 <= k < |ws| && ws[k] == w;
      if k < i { assert r[k] == w; } else { assert r[k - 1] == w; }
    }
    forall w | w in r ensures w in ws && w.id != ws[i].id {
      var k :| 0 <= k < |r| && r[k] == w;
      if k >= i { assert ws[k + 1] == w; }
    }
  }

  lemma IdsAfterPush(ws: seq<Workshop>, w: Workshop)
    ensures Ids(ws + [w]) == Ids(ws) + {w.id}
  {
    assert forall x :: x in ws + [w] <==> x in ws || x == w;
  }

  lemma OpenPathKeepsInv(st: State, directory: string, isDir: bool)
    requires Inv(st)
    ensures Inv(OpenPath(st, directory, isDir))
  {
    var st' := OpenPath(st, directory, isDir);
    if isDir && PositionOfDirectory(st.workshops, directory).None? {
      IdsAfterPush(st.workshops, Workshop(st.nextId, directory));
      forall key | key in st'.slots ensures SlotInv(st', key) {
        if key in st.slots { assert SlotInv(st, key); }
      }
      forall id | id in st'.initPending ensures InitInv(st', id) {
        if id in st.initPending { assert InitInv(st, id); }
      }
    } else {
      KeepsSlots(st, st');
    }
  }

  // Nothing but the active index differs.
  lemma KeepsSlots(st: State, st': State)
    requires Inv(st) && st' == st.(active := st'.active) && ListInv(st'.workshops, st'.active)
    ensures Inv(st')
  {
    forall key | key in st'.slots ensures SlotInv(st', key) { assert SlotInv(st, key); }
    forall id | id in st'.initPending ensures InitInv(st', id) { assert InitInv(st, id); }
  }

  lemma CloseKeepsList(st: State, idx: nat)
    requires Inv(st) && idx < |st.workshops|
    ensures ListInv(Close(st, idx).workshops, Close(st, idx).active)
  {
  }

  lemma CloseKeepsSlot(st: State, idx: nat, key: Key)
    requires Inv(st) && idx < |st.workshops| && key in st.slots
    ensures Close(st, idx).slots.Keys == st.slots.Keys
    ensures SlotInv(Close(st, idx), key)
  {
    var id := st.workshops[idx].id;
    IdsAfterRemove(st.workshops, idx);
    assert SlotInv(st, key);
    assert st.workshops[idx] in st.workshops;
    if key.id == id {
      assert !InReach(Close(st, idx), key);
      assert key.kind == Irc || (key.kind == Ircd && (id in st.supervisors <==> InReach(st, key)));
    } else {
      assert Close(st, idx).slots[key] == st.slots[key];
      assert InReach(Close(st, idx), key) == InReach(st, key);
    }
  }

  lemma CloseKeepsInv(st: State, idx: nat)
    requires Inv(st) && idx < |st.workshops|
    ensures Inv(Close(st, idx))
  {
    var st' := Close(st, idx);
    IdsAfterRemove(st.workshops, idx);
    assert st.workshops[idx] in st.workshops;
    CloseKeepsList(st, idx);
    forall key | key in st'.slots ensures key in st.slots && SlotInv(st', key) { CloseKeepsSlot(st, idx, key); }
    forall id | id in st'.initPending ensures InitInv(st', id) { assert InitInv(st, id); }
  }

  lemma InitFailedKeepsList(st: State, id: Uuid)
    requires Inv(st)
    ensures var st' := InitFailed(st, id);
      ListInv(st'.workshops, st'.active) && Ids(st'.workshops) == Ids(st.workshops) - {id}
  {
    match PositionOfId(st.workshops, id)
    case Some(pos) => IdsAfterRemove(st.workshops, pos);
    case None =>
  }

  lemma InitFailedKeepsSlot(st: State, id: Uuid, key: Key)
    requires Inv(st) && id in st.initPending && key in st.slots
    ensures InitFailed(st, id).slots.Keys == st.slots.Keys && SlotInv(InitFailed(st, id), key)
  {
    InitFailedKeepsList(st, id);
    assert InitInv(st, id) && SlotInv(st, key);
  }

  lemma InitFailedKeepsInv(st: State, id: Uuid)
    requires Inv(st) && id in st.initPending
    ensures Inv(InitFailed(st, id))
  {
    var st' := InitFailed(st, id);
    assert InitInv(st, id);
    InitFailedKeepsList(st, id);
    forall key | key in st'.slots ensures key in st.slots && SlotInv(st', key) {
      if key in st.slots { InitFailedKeepsSlot(st, id, key); }
    }
    forall i | i in st'.initPending ensures InitInv(st', i) { assert InitInv(st, i); }
  }

  lemma ReadyKeepsInv(st: State, id: Uuid, hasSpec: bool, hasIrc: bool)
    requires Inv(st) && id in st.initPending
    ensures Inv(Ready(st, id, hasSpec, hasIrc))
  {
    var st' := Ready(st, id, hasSpec, hasIrc);
    assert InitInv(st, id);
    forall key | key in st'.slots ensures key.id < st'.nextId && SlotInv(st', key) {
      if key in st.slots { assert SlotInv(st, key); }
    }
    forall i | i in st'.initPending ensures InitInv(st', i) { assert InitInv(st, i); }
  }

  // A step that rewrites one slot and leaves who reaches what alone.
  lemma SlotStepKeepsInv(st: State, key: Key, s: Slot)
    requires Inv(st) && key in st.slots
    requires SlotInv(st.(slots := st.slots[key := s]), key)
    requires key.kind == Irc && key.id in st.initPending ==> s.phase == Idle
    ensures Inv(st.(slots := st.slots[key := s]))
  {
    var st' := st.(slots := st.slots[key := s]);
    forall k | k in st'.slots ensures SlotInv(st', k) {
      if k != key { assert SlotInv(st, k); }
    }
    forall i | i in st'.initPending ensures InitInv(st', i) { assert InitInv(st, i); }
  }

  // While a start is pending the owners are the starter and, until it is closed, the app: so the
  // strong count is 1 exactly when the workshop has gone.
  lemma PendingOwners(st: State, key: Key)
    requires Inv(st) && key in st.slots
    requires st.slots[key].phase == Starting || st.slots[key].phase == InHand
    ensures st.slots[key].owners == {Starter} + if InReach(st, key) then {App} else {}
    ensures StrongCount(st.slots[key]) == 1 <==> !InReach(st, key)
  {
    assert SlotInv(st, key);
    var owners := st.slots[key].owners;
    assert owners == {Starter} + if InReach(st, key) then {App} else {};
  }

  lemma PendingIsIdle(st: State, id: Uuid)
    requires Inv(st)
    ensures id in st.initPending ==> InitInv(st, id)
  {
  }

  lemma InstallKeepsInv(st: State, key: Key)
    requires Inv(st) && Enabled(st, EInstall(key))
    ensures Inv(Step(st, EInstall(key)))
  {
    assert SlotInv(st, key);
    PendingOwners(st, key);
    PendingIsIdle(st, key.id);
    SlotStepKeepsInv(st, key, Install(st.slots[key]));
  }

  lemma StartReturnedKeepsInv(st: State, key: Key, ok: bool)
    requires Inv(st) && Enabled(st, EStartReturned(key, ok))
    ensures Inv(Step(st, EStartReturned(key, ok)))
  {
    assert SlotInv(st, key);
    PendingIsIdle(st, key.id);
    SlotStepKeepsInv(st, key, StartReturned(st.slots[key], ok));
  }

  lemma SparksLoadedKeepsInv(st: State, id: Uuid, newEpics: bool, n: nat)
    requires Inv(st) && Enabled(st, ESparksLoaded(id, newEpics, n))
    ensures Inv(SparksLoaded(st, id, newEpics, n))
  {
    var key := Key(id, Irc);
    if SparksLoaded(st, id, newEpics, n) != st {
      assert SlotInv(st, key);
      PendingIsIdle(st, id);
      SlotStepKeepsInv(st, key, st.slots[key].(owners := st.slots[key].owners + {Announcer(n)}));
    }
  }

  lemma AnnouncerDoneKeepsInv(st: State, id: Uuid, n: nat)
    requires Inv(st) && Enabled(st, EAnnouncerDone(id, n))
    ensures Inv(Step(st, EAnnouncerDone(id, n)))
  {
    var key := Key(id, Irc);
    assert SlotInv(st, key);
    PendingIsIdle(st, id);
    SlotStepKeepsInv(st, key, st.slots[key].(owners := st.slots[key].owners - {Announcer(n)}));
  }

  lemma PoisonKeepsInv(st: State, key: Key)
    requires Inv(st) && Enabled(st, EPoison(key))
    ensures Inv(Step(st, EPoison(key)))
  {
    assert SlotInv(st, key);
    PendingIsIdle(st, key.id);
    SlotStepKeepsInv(st, key, st.slots[key].(poisoned := true));
  }

  lemma StepKeepsInv(st: State, e: Event)
    requires Inv(st) && Enabled(st, e)
    ensures Inv(Step(st, e))
  {
    match e
    case EOpenPath(directory, isDir) => OpenPathKeepsInv(st, directory, isDir);
    case ESelect(i) => KeepsSlots(st, Select(st, i));
    case EClose(idx) => if idx < |st.workshops| { CloseKeepsInv(st, idx); }
    case EInitFailed(id) => InitFailedKeepsInv(st, id);
    case EReady(id, hasSpec, hasIrc) => ReadyKeepsInv(st, id, hasSpec, hasIrc);
    case ESparksLoaded(id, newEpics, n) => SparksLoadedKeepsInv(st, id, newEpics, n);
    case EStartReturned(key, ok) => StartReturnedKeepsInv(st, key, ok);
    case EInstall(key) => InstallKeepsInv(st, key);
    case EAnnouncerDone(id, n) => AnnouncerDoneKeepsInv(st, id, n);
    case EPoison(key) => PoisonKeepsInv(st, key);
  }

  lemma {:induction false} RunKeepsInv(st: State, events: seq<Event>)
    requires Inv(st) && Valid(st, events)
    ensures Inv(Run(st, events))
    decreases |events|
  {
    if events != [] {
      StepKeepsInv(st, events[0]);
      RunKeepsInv(Step(st, events[0]), events[1..]);
    }
  }

  // ---- What every interleaving guarantees -----------------------------------------------------

  predicate Held(st: State, key: Key)
    requires key in st.slots
  {
    st.slots[key].full && InReach(st, key)
  }

  // Nothing can stop this process any more: its task has finished and no open workshop finds it.
  predicate Lost(st: State, key: Key)
    requires key in st.slots
  {
    var s := st.slots[key];
    s.started && s.phase == Done && s.shutdowns == 0 && !Held(st, key)
  }

  // Each started process is with its task, held for an open workshop, or shut down: exactly one
  // of the three and never shut down twice. The one way to lose one is an IRC runtime whose slot
  // lock was poisoned when its workshop closed.
  lemma NoProcessLost(events: seq<Event>, key: Key)
    requires Valid(Initial(), events)
    requires key in Run(Initial(), events).slots
    ensures var st := Run(Initial(), events); var s := st.slots[key];
      && s.shutdowns <= 1
      && (Lost(st, key) ==> key.kind == Irc && s.poisoned && s.full)
      && (s.started && !Lost(st, key) ==>
            Num(s.phase == InHand) + Num(Held(st, key)) + Num(s.shutdowns == 1) == 1)
      && (!s.started ==> !s.full && s.shutdowns == 0)
  {
    RunKeepsInv(Initial(), events);
    assert SlotInv(Run(Initial(), events), key);
  }

  // Once its workshop has gone and its task has finished, a process was shut down exactly once.
  lemma ClosedMeansShutDown(events: seq<Event>, key: Key)
    requires Valid(Initial(), events)
    requires var st := Run(Initial(), events);
      && key in st.slots && st.slots[key].phase == Done && st.slots[key].started
      && !InReach(st, key) && !st.slots[key].poisoned
    ensures Run(Initial(), events).slots[key].shutdowns == 1
  {
    NoProcessLost(events, key);
  }

  // The close step itself loses the IRC runtime exactly when the slot is full and poisoned; it
  // always stops an installed supervisor.
  lemma CloseLosesExactlyPoisoned(st: State, idx: nat)
    requires Inv(st) && idx < |st.workshops|
    ensures var id := st.workshops[idx].id; var st' := Close(st, idx);
      && Key(id, Irc) in st.slots && Key(id, Irc) in st'.slots
      && (Lost(st', Key(id, Irc)) <==> st.slots[Key(id, Irc)].full && st.slots[Key(id, Irc)].poisoned)
      && (id in st.supervisors && st.slots[Key(id, Ircd)].full ==> st'.slots[Key(id, Ircd)].shutdowns == 1)
  {
    var id := st.workshops[idx].id;
    IdsAfterRemove(st.workshops, idx);
    assert st.workshops[idx] in st.workshops;
    assert SlotInv(st, Key(id, Irc));
    if id in st.supervisors { assert SlotInv(st, Key(id, Ircd)); }
  }

  lemma {:induction false} Extend(st: State, events: seq<Event>, e: Event)
    requires Valid(st, events) && Enabled(Run(st, events), e)
    ensures Valid(st, events + [e]) && Run(st, events + [e]) == Step(Run(st, events), e)
    decreases |events|
  {
    if events == [] {
      assert ([e])[1..] == [];
      assert events + [e] == [e];
    } else {
      Extend(Step(st, events[0]), events[1..], e);
      assert (events + [e])[1..] == events[1..] + [e];
    }
  }

  ghost predicate InstalledAt(st: State, key: Key) {
    Inv(st) && |st.workshops| > 0 && st.workshops[0].id == key.id && key in st.slots && st.slots[key].full
  }

  // Open, ready, runtime started and installed.
  lemma RuntimeInstalled() returns (events: seq<Event>)
    ensures Valid(Initial(), events) && InstalledAt(Run(Initial(), events), Key(0, Irc))
  {
    var key := Key(0, Irc);
    IdsAfterPush([], Workshop(0, "w"));
    var s1 := OpenPath(Initial(), "w", true);
    assert s1.workshops == [Workshop(0, "w")];
    Extend(Initial(), [], EOpenPath("w", true));
    events := [] + [EOpenPath("w", true)];
    Extend(Initial(), events, EReady(0, false, true));
    events := events + [EReady(0, false, true)];
    assert Run(Initial(), events).slots[key].phase == Starting;
    Extend(Initial(), events, EStartReturned(key, true));
    events := events + [EStartReturned(key, true)];
    RunKeepsInv(Initial(), events);
    PendingOwners(Run(Initial(), events), key);
    Extend(Initial(), events, EInstall(key));
    events := events + [EInstall(key)];
    RunKeepsInv(Initial(), events);
  }

  lemma RuntimePoisoned() returns (events: seq<Event>)
    ensures Valid(Initial(), events) && InstalledAt(Run(Initial(), events), Key(0, Irc))
    ensures Run(Initial(), events).slots[Key(0, Irc)].poisoned
  {
    var before := RuntimeInstalled();
    var st := Run(Initial(), before);
    assert SlotInv(st, Key(0, Irc));
    assert st.workshops[0] in st.workshops;
    Extend(Initial(), before, EPoison(Key(0, Irc)));
    events := before + [EPoison(Key(0, Irc))];
    RunKeepsInv(Initial(), events);
  }

  // Such a run exists: the lock is poisoned after the install, then the workshop closes.
  lemma PoisonedCloseLosesRuntime()
    ensures exists events, key :: Valid(Initial(), events) && key in Run(Initial(), events).slots
                                  && Lost(Run(Initial(), events), key)
  {
    var key := Key(0, Irc);
    var events := RuntimePoisoned();
    Extend(Initial(), events, EClose(0));
    CloseLosesExactlyPoisoned(Run(Initial(), events), 0);
    assert Lost(Run(Initial(), events + [EClose(0)]), key);
  }

  // ---- The workshop list ----------------------------------------------------------------------

  function ActiveId(st: State): Option<Uuid> {
    if st.active.Some? && st.active.value < |st.workshops| then Some(st.workshops[st.active.value].id) else None
  }

  // Removing a workshop other than the active one leaves the same workshop active, by either path.
  lemma RemovalKeepsActiveWorkshop(st: State, idx: nat)
    requires Inv(st) && idx < |st.workshops| && st.active != Some(idx)
    ensures ActiveId(Close(st, idx)) == ActiveId(st)
    ensures ActiveId(InitFailed(st, st.workshops[idx].id)) == ActiveId(st)
  {
    assert st.workshops[idx] in st.workshops;
  }

  // The position an event removes from the list, if it removes one.
  ghost function Removed(st: State, e: Event): Option<nat> {
    match e
    case EClose(idx) => if idx < |st.workshops| then Some(idx) else None
    case EInitFailed(id) => PositionOfId(st.workshops, id)
    case _ => None
  }

  ghost predicate RemovesUpTo(st: State, events: seq<Event>, idx: nat)
    requires Valid(st, events)
    decreases |events|
  {
    events != [] &&
    ((Removed(st, events[0]).Some? && Removed(st, events[0]).value <= idx)
     || RemovesUpTo(Step(st, events[0]), events[1..], idx))
  }

  predicate Names(st: State, idx: nat, id: Uuid) {
    idx < |st.workshops| && st.workshops[idx].id == id
  }

  // Positions are only ever lost from below, so a workshop never climbs back to `idx`.
  ghost predicate Below(st: State, idx: nat, id: Uuid) {
    id < st.nextId && forall i :: idx <= i < |st.workshops| ==> st.workshops[i].id != id
  }

  lemma StepMovesDown(st: State, e: Event, idx: nat, id: Uuid)
    requires Inv(st) && Enabled(st, e)
    requires Below(st, idx, id) || Names(st, idx, id)
    ensures Below(st, idx, id) ==> Below(Step(st, e), idx, id)
    ensures Names(st, idx, id) && Removed(st, e).Some? && Removed(st, e).value <= idx ==> Below(Step(st, e), idx, id)
    ensures Names(st, idx, id) && !(Removed(st, e).Some? && Removed(st, e).value <= idx) ==> Names(Step(st, e), idx, id)
  {
    if Names(st, idx, id) {
      assert st.workshops[idx] in st.workshops;
      assert id in Ids(st.workshops);
    }
  }

  lemma {:induction false} NeverClimbsBack(st: State, events: seq<Event>, idx: nat, id: Uuid)
    requires Inv(st) && Valid(st, events) && Below(st, idx, id)
    ensures Below(Run(st, events), idx, id)
    decreases |events|
  {
    if events != [] {
      StepMovesDown(st, events[0], idx, id);
      StepKeepsInv(st, events[0]);
      NeverClimbsBack(Step(st, events[0]), events[1..], idx, id);
    }
  }

  // The close dialog keeps an index. Whatever happens before it is confirmed, that index still
  // names the workshop it was opened for if and only if nothing at or below it was removed.
  lemma {:induction false} DialogIndexStillNames(st: State, events: seq<Event>, idx: nat)
    requires Inv(st) && Valid(st, events) && idx < |st.workshops|
    ensures Names(Run(st, events), idx, st.workshops[idx].id) <==> !RemovesUpTo(st, events, idx)
    decreases |events|
  {
    var id := st.workshops[idx].id;
    assert st.workshops[idx] in st.workshops;
    if events != [] {
      var next := Step(st, events[0]);
      StepMovesDown(st, events[0], idx, id);
      StepKeepsInv(st, events[0]);
      if Removed(st, events[0]).Some? && Removed(st, events[0]).value <= idx {
        NeverClimbsBack(next, events[1..], idx, id);
      } else {
        DialogIndexStillNames(next, events[1..], idx);
      }
    }
  }

  // ---- What each step does ----------------------------------------------------------------------

  // Slots of other workshops stand.
  ghost predicate OthersStand(st: State, st': State, id: Uuid) {
    forall key: Key :: key.id != id ==>
      (key in st'.slots <==> key in st.slots) && (key in st.slots ==> st'.slots[key] == st.slots[key])
  }

  // A path that is no directory changes nothing; one that is open is made active; any other joins the
  // end of the list under a fresh id, active, with an idle IRC slot and its init pending.
  lemma OpenEffects(st: State, directory: string, isDir: bool)
    requires Inv(st)
    ensures var st' := Step(st, EOpenPath(directory, isDir));
      && (!isDir ==> st' == st)
      && (isDir ==> st'.active.Some? && st'.active.value < |st'.workshops| && st'.workshops[st'.active.value].directory == directory)
      && (forall i :: isDir && 0 <= i < |st.workshops| && st.workshops[i].directory == directory ==> st' == st.(active := Some(i)))
      && (isDir && (forall i :: 0 <= i < |st.workshops| ==> st.workshops[i].directory != directory) ==>
            && st'.workshops == st.workshops + [Workshop(st.nextId, directory)]
            && st'.initPending == st.initPending + {st.nextId} && st.nextId < st'.nextId && st'.supervisors == st.supervisors
            && Key(st.nextId, Irc) in st'.slots && st'.slots[Key(st.nextId, Irc)] == Slot({App}, false, false, Idle, false, 0)
            && OthersStand(st, st', st.nextId))
  {
    var found := PositionOfDirectory(st.workshops, directory);
    forall i | 0 <= i < |st.workshops| && st.workshops[i].directory == directory ensures found == Some(i) {
    }
  }

  lemma SelectEffects(st: State, i: nat)
    ensures Step(st, ESelect(i)) == st.(active := if i < |st.workshops| then Some(i) else st.active)
  {
  }

  // A close past the end changes nothing. Any other removes its workshop, stops what the two slots hold
  // (unless the IRC lock is poisoned) and drops the app's clones; the active workshop stays, or if it was
  // the one closed its successor becomes active, or else its predecessor.
  lemma CloseEffects(st: State, idx: nat)
    requires Inv(st)
    ensures var st' := Step(st, EClose(idx));
      && (idx >= |st.workshops| ==> st' == st)
      && (idx < |st.workshops| ==>
            var id := st.workshops[idx].id; var irc, ircd := Key(id, Irc), Key(id, Ircd);
            && st'.workshops == st.workshops[..idx] + st.workshops[idx + 1..]
            && st'.supervisors == st.supervisors - {id} && st'.initPending == st.initPending && st'.nextId == st.nextId
            && irc in st.slots && irc in st'.slots && Stopped(st.slots[irc], st'.slots[irc], !st.slots[irc].poisoned)
            && (id in st.supervisors ==> ircd in st.slots && ircd in st'.slots && Stopped(st.slots[ircd], st'.slots[ircd], true))
            && OthersStand(st, st', id)
            && (st.active != Some(idx) ==> ActiveId(st') == ActiveId(st))
            && (st.active == Some(idx) ==>
                  st'.active == if idx + 1 < |st.workshops| then Some(idx) else if idx > 0 then Some(idx - 1) else None))
  {
    if idx < |st.workshops| {
      assert st.workshops[idx] in st.workshops;
      assert SlotInv(st, Key(st.workshops[idx].id, Irc));
    }
  }

  // The slot loses the app's clone; its process is stopped if it is there and can be reached.
  ghost predicate Stopped(s: Slot, s': Slot, reached: bool) {
    && s'.owners == s.owners - {App}
    && s'.full == (s.full && !reached)
    && s'.shutdowns == s.shutdowns + Num(s.full && reached)
    && s'.poisoned == s.poisoned && s'.phase == s.phase && s'.started == s.started
  }

  // While the init is pending the IRC slot is untouched, and the app has it if the workshop is open.
  lemma PendingSlot(st: State, id: Uuid)
    requires Inv(st) && id in st.initPending
    ensures Key(id, Irc) in st.slots
    ensures st.slots[Key(id, Irc)] ==
            Slot(if id in Ids(st.workshops) then {App} else {}, false, st.slots[Key(id, Irc)].poisoned, Idle, false, 0)
  {
    assert InitInv(st, id) && SlotInv(st, Key(id, Irc));
    var owners := st.slots[Key(id, Irc)].owners;
    assert owners == if id in Ids(st.workshops) then {App} else {} by {
      assert forall o :: o in owners ==> o == App;
    }
  }

  // A failed init drops the app's clone of the IRC slot if its workshop is still open, and nothing else of
  // the slots, the supervisors or the other pending inits changes;
  lemma InitFailedEffects(st: State, id: Uuid)
    requires Inv(st) && id in st.initPending
    ensures var st' := Step(st, EInitFailed(id));
      && st'.initPending == st.initPending - {id} && st'.supervisors == st.supervisors && st'.nextId == st.nextId
      && OthersStand(st, st', id)
      && (id !in Ids(st.workshops) ==> st' == st.(initPending := st.initPending - {id}))
      && Key(id, Irc) in st'.slots && st'.slots[Key(id, Irc)].owners == {} && st'.slots[Key(id, Irc)].phase == Idle
  {
    PendingSlot(st, id);
  }

  // and it takes that workshop from the list. Another active workshop stays active; if it was the active
  // one, its predecessor becomes active, or else its successor.
  lemma InitFailedListEffects(st: State, i: nat)
    requires Inv(st) && i < |st.workshops| && st.workshops[i].id in st.initPending
    ensures var st' := Step(st, EInitFailed(st.workshops[i].id));
      && st'.workshops == st.workshops[..i] + st.workshops[i + 1..]
      && (st.active != Some(i) ==> ActiveId(st') == ActiveId(st))
      && (st.active == Some(i) ==>
            st'.active == if |st.workshops| == 1 then None else if i > 0 then Some(i - 1) else Some(0))
  {
    assert st.workshops[i] in st.workshops;
    assert PositionOfId(st.workshops, st.workshops[i].id) == Some(i);
    RemovalKeepsActiveAt(st, i);
  }

  lemma RemovalKeepsActiveAt(st: State, i: nat)
    requires Inv(st) && i < |st.workshops|
    ensures st.active != Some(i) ==> ActiveId(InitFailed(st, st.workshops[i].id)) == ActiveId(st)
  {
    if st.active != Some(i) { RemovalKeepsActiveWorkshop(st, i); }
  }

  // A workshop that is ready and still open gets a supervisor and a slot for it exactly if there is a
  // daemon to run, and its IRC start begins exactly if one is configured; nothing else changes.
  lemma ReadyEffects(st: State, id: Uuid, hasSpec: bool, hasIrc: bool)
    requires Inv(st) && id in st.initPending
    ensures var st' := Step(st, EReady(id, hasSpec, hasIrc)); var irc, ircd := Key(id, Irc), Key(id, Ircd);
      && st'.initPending == st.initPending - {id} && st'.workshops == st.workshops && st'.active == st.active
      && st'.nextId == st.nextId && st'.supervisors - {id} == st.supervisors - {id} && OthersStand(st, st', id)
      && (id !in Ids(st.workshops) ==> st' == st.(initPending := st.initPending - {id}))
      && (id in Ids(st.workshops) ==>
            && (id in st'.supervisors <==> hasSpec)
            && (ircd in st'.slots <==> hasSpec)
            && (hasSpec ==> st'.slots[ircd] == Slot({App, Starter}, false, false, Starting, false, 0))
            && irc in st.slots && irc in st'.slots
            && st'.slots[irc] == Slot(if hasIrc then {App, Starter} else {App}, false, st.slots[irc].poisoned,
                                      if hasIrc then Starting else Idle, false, 0))
  {
    PendingSlot(st, id);
    assert InitInv(st, id);
  }

  // A load of an open workshop lets one more clone of its IRC slot escape exactly when the runtime is
  // there to be seen and an epic is new.
  lemma LoadEffects(st: State, id: Uuid, newEpics: bool, n: nat)
    requires Inv(st) && Enabled(st, ESparksLoaded(id, newEpics, n))
    ensures var st' := Step(st, ESparksLoaded(id, newEpics, n)); var irc := Key(id, Irc);
      && st' == st.(slots := st'.slots) && st'.slots.Keys == st.slots.Keys
      && (forall key :: key in st.slots && key != irc ==> st'.slots[key] == st.slots[key])
      && (irc in st.slots ==>
            st'.slots[irc] == st.slots[irc].(owners := st.slots[irc].owners
              + if newEpics && id in Ids(st.workshops) && st.slots[irc].full && !st.slots[irc].poisoned then {Announcer(n)} else {}))
  {
  }

  lemma StartedOwners(st: State, key: Key)
    requires Inv(st) && key in st.slots && (st.slots[key].phase == Starting || st.slots[key].phase == InHand)
    ensures st.slots[key].owners == (if InReach(st, key) then {App} else {}) + {Starter}
    ensures st.slots[key].owners - {Starter} == if InReach(st, key) then {App} else {}
  {
    PendingOwners(st, key);
  }

  // A start that failed drops the task's clone for good; one that succeeded leaves the process in hand.
  lemma StartEffects(st: State, key: Key, ok: bool)
    requires Inv(st) && Enabled(st, EStartReturned(key, ok))
    ensures var st' := Step(st, EStartReturned(key, ok)); var s' := st'.slots[key];
      && st' == st.(slots := st.slots[key := s'])
      && s'.started == ok && !s'.full && s'.shutdowns == 0 && s'.poisoned == st.slots[key].poisoned
      && s'.phase == (if ok then InHand else Done)
      && s'.owners == (if InReach(st, key) then {App} else {}) + if ok then {Starter} else {}
  {
    StartedOwners(st, key);
    assert SlotInv(st, key);
  }

  // A process in hand is put into the slot if its workshop is open and shut down if not.
  lemma InstallEffects(st: State, key: Key)
    requires Inv(st) && Enabled(st, EInstall(key))
    ensures var st' := Step(st, EInstall(key)); var s' := st'.slots[key];
      && st' == st.(slots := st.slots[key := s'])
      && s'.started && s'.phase == Done && s'.poisoned == st.slots[key].poisoned
      && s'.full == InReach(st, key) && s'.shutdowns == Num(!InReach(st, key))
      && s'.owners == if InReach(st, key) then {App} else {}
  {
    PendingOwners(st, key);
    StartedOwners(st, key);
    assert SlotInv(st, key);
  }

  lemma AnnouncerDoneEffects(st: State, id: Uuid, n: nat)
    requires Enabled(st, EAnnouncerDone(id, n))
    ensures var st' := Step(st, EAnnouncerDone(id, n)); var irc := Key(id, Irc);
      st' == st.(slots := st.slots[irc := st'.slots[irc]])
      && st'.slots[irc] == st.slots[irc].(owners := st.slots[irc].owners - {Announcer(n)})
  {
  }

  lemma DaemonStarting() returns (events: seq<Event>)
    ensures Valid(Initial(), events)
    ensures var st := Run(Initial(), events);
      && Inv(st) && st.workshops == [Workshop(0, "w")] && 0 in st.supervisors
      && Key(0, Ircd) in st.slots && st.slots[Key(0, Ircd)].phase == Starting
  {
    OpenEffects(Initial(), "w", true);
    Extend(Initial(), [], EOpenPath("w", true));
    events := [] + [EOpenPath("w", true)];
    RunKeepsInv(Initial(), events);
    var st := Run(Initial(), events);
    assert st.workshops == [Workshop(0, "w")];
    assert st.workshops[0] in st.workshops;
    ReadyEffects(st, 0, true, false);
    Extend(Initial(), events, EReady(0, true, false));
    events := events + [EReady(0, true, false)];
    RunKeepsInv(Initial(), events);
  }

  lemma DaemonInHand() returns (events: seq<Event>)
    ensures Valid(Initial(), events)
    ensures var st := Run(Initial(), events);
      && Inv(st) && st.workshops == [Workshop(0, "w")] && 0 in st.supervisors
      && Key(0, Ircd) in st.slots && st.slots[Key(0, Ircd)].phase == InHand
  {
    var key := Key(0, Ircd);
    events := DaemonStarting();
    StartEffects(Run(Initial(), events), key, true);
    Extend(Initial(), events, EStartReturned(key, true));
    events := events + [EStartReturned(key, true)];
    RunKeepsInv(Initial(), events);
  }

  // A supervisor that was started and installed from the empty app,
  lemma SupervisorInstalled() returns (events: seq<Event>)
    ensures Valid(Initial(), events) && InstalledAt(Run(Initial(), events), Key(0, Ircd))
    ensures var st := Run(Initial(), events); 0 in st.supervisors && st.slots[Key(0, Ircd)].shutdowns == 0
  {
    var key := Key(0, Ircd);
    events := DaemonInHand();
    InstallEffects(Run(Initial(), events), key);
    Extend(Initial(), events, EInstall(key));
    events := events + [EInstall(key)];
    RunKeepsInv(Initial(), events);
  }

  // is stopped once by the close of its workshop.
  lemma SupervisorStopsOnce()
    ensures exists events :: Valid(Initial(), events) && Key(0, Ircd) in Run(Initial(), events).slots
              && Run(Initial(), events).slots[Key(0, Ircd)].started && Run(Initial(), events).slots[Key(0, Ircd)].shutdowns == 1
  {
    var events := SupervisorInstalled();
    var st := Run(Initial(), events);
    assert SlotInv(st, Key(0, Ircd));
    CloseEffects(st, 0);
    Extend(Initial(), events, EClose(0));
    assert Run(Initial(), events + [EClose(0)]) == Step(st, EClose(0));
  }

  // ---- The IRC connect loop -------------------------------------------------------------------

  datatype StartError = ConnectError | OtherError

  const RETRY_DELAYS_MS: seq<nat> := [200, 200, 400, 400, 600]

  function Sum(s: seq<nat>): nat {
    if s == [] then 0 else Sum(s[..|s| - 1]) + s[|s| - 1]
  }

  // Retries connect errors only, at most five times; `answers(k)` is what attempt k+1 returns.
  method StartWithRetry(answers: nat -> Option<StartError>)
    returns (attempts: nat, result: Option<StartError>, slept: nat)
    ensures 1 <= attempts <= |RETRY_DELAYS_MS| + 1
    ensures result == answers(attempts - 1)
    ensures forall k :: 0 <= k < attempts - 1 ==> answers(k) == Some(ConnectError)
    ensures result == Some(ConnectError) ==> attempts == |RETRY_DELAYS_MS| + 1
    ensures slept == Sum(RETRY_DELAYS_MS[..attempts - 1])
  {
    attempts, slept := 0, 0;
    while true
      invariant attempts <= |RETRY_DELAYS_MS|
      invariant forall k :: 0 <= k < attempts ==> answers(k) == Some(ConnectError)
      invariant slept == Sum(RETRY_DELAYS_MS[..attempts])
      decreases |RETRY_DELAYS_MS| - attempts
    {
      attempts := attempts + 1;
      result := answers(attempts - 1);
      if result != Some(ConnectError) {
        break;
      }
      var idx := attempts - 1;
      if idx >= |RETRY_DELAYS_MS| {
        break;
      }
      slept := slept + RETRY_DELAYS_MS[idx];
      assert RETRY_DELAYS_MS[..attempts][..idx] == RETRY_DELAYS_MS[..idx];
    }
  }

  // ---- The app --------------------------------------------------------------------------------

  // The part of the app that the handlers below update, with the shared slots.
  class App {
    var workshops: seq<Workshop>
    var activeWorkshop: Option<nat>
    var ircdSupervisors: set<Uuid>
    var slots: map<Key, Slot>
    var initPending: set<Uuid>
    var nextId: nat
    var pendingCloseWorkshop: Option<nat>

    function Model(): State
      reads this
    {
      State(workshops, activeWorkshop, ircdSupervisors, slots, initPending, nextId)
    }

    constructor ()
      ensures Model() == Initial() && Inv(Model()) && pendingCloseWorkshop == None
    {
      workshops, activeWorkshop, ircdSupervisors := [], None, {};
      slots, initPending, nextId, pendingCloseWorkshop := map[], {}, 0, None;
    }

    method OpenWorkshopPath(path: string, isDir: bool)
      requires Inv(Model())
      modifies this
      ensures Model() == old(OpenPath(Model(), path, isDir)) && Inv(Model())
      ensures pendingCloseWorkshop == old(pendingCloseWorkshop)
    {
      OpenPathKeepsInv(Model(), path, isDir);
      if !isDir {
        return;
      }
      var existing := PositionOfDirectory(workshops, path);
      if existing.Some? {
        activeWorkshop := existing;
        return;
      }
      var id := nextId;
      nextId := nextId + 1;
      slots := slots[Key(id, Irc) := Slot({Owner.App}, false, false, Idle, false, 0)];
      workshops := workshops + [Workshop(id, path)];
      activeWorkshop := Some(|workshops| - 1);
      initPending := initPending + {id};
    }

    method SelectWorkshop(idx: nat)
      requires Inv(Model())
      modifies this
      ensures Model() == old(Select(Model(), idx)) && Inv(Model())
      ensures pendingCloseWorkshop == old(pendingCloseWorkshop)
    {
      KeepsSlots(Model(), Select(Model(), idx));
      if idx < |workshops| {
        activeWorkshop := Some(idx);
      }
    }

    // Asks first when Hands are still active.
    method CloseWorkshop(idx: nat, activeHands: Uuid -> nat)
      requires Inv(Model())
      modifies this
      ensures Inv(Model())
      ensures if idx < |old(workshops)| && activeHands(old(workshops)[idx].id) > 0
              then Model() == old(Model()) && pendingCloseWorkshop == Some(idx)
              else Model() == old(CloseAt(Model(), idx)) && pendingCloseWorkshop == old(pendingCloseWorkshop)
    {
      if idx < |workshops| && activeHands(workshops[idx].id) > 0 {
        pendingCloseWorkshop := Some(idx);
        return;
      }
      DoCloseWorkshop(idx);
    }

    method ConfirmCloseWorkshop(idx: nat)
      requires Inv(Model())
      modifies this
      ensures Model() == old(CloseAt(Model(), idx)) && Inv(Model()) && pendingCloseWorkshop == None
    {
      pendingCloseWorkshop := None;
      DoCloseWorkshop(idx);
    }

    method DoCloseWorkshop(idx: nat)
      requires Inv(Model())
      modifies this
      ensures Model() == old(CloseAt(Model(), idx)) && Inv(Model())
      ensures pendingCloseWorkshop == old(pendingCloseWorkshop)
    {
      if idx >= |workshops| {
        return;
      }
      CloseKeepsInv(Model(), idx);
      var id := workshops[idx].id;
      assert workshops[idx] in workshops;
      StopIrcRuntime(Key(id, Irc));
      StopSupervisor(id);
      DropFromList(idx);
    }

    // The tail of the close: the list shrinks, and the active index follows its workshop or stays put.
    method DropFromList(idx: nat)
      requires idx < |workshops|
      modifies this`workshops, this`activeWorkshop
      ensures workshops == RemoveAt(old(workshops), idx)
      ensures activeWorkshop == ActiveAfterClose(old(activeWorkshop), idx, |workshops|)
    {
      workshops := RemoveAt(workshops, idx);
      if workshops == [] {
        activeWorkshop := None;
      } else if activeWorkshop.Some? {
        var active := activeWorkshop.value;
        if active > idx {
          activeWorkshop := Some(active - 1);
        } else if active == idx {
          activeWorkshop := Some(if idx < |workshops| - 1 then idx else |workshops| - 1);
        }
      }
    }

    method StopIrcRuntime(key: Key)
      requires key in slots
      modifies this`slots
      ensures slots == old(slots)[key := CloseIrc(old(slots[key]))]
    {
      var irc := slots[key];
      if !irc.poisoned && irc.full {
        irc := irc.(full := false, shutdowns := irc.shutdowns + 1);
      }
      slots := slots[key := irc.(owners := irc.owners - {Owner.App})];
    }

    method StopSupervisor(id: Uuid)
      requires id in ircdSupervisors ==> Key(id, Ircd) in slots
      modifies this`slots, this`ircdSupervisors
      ensures ircdSupervisors == old(ircdSupervisors) - {id}
      ensures slots == if id in old(ircdSupervisors)
                       then old(slots)[Key(id, Ircd) := CloseIrcd(old(slots[Key(id, Ircd)]))] else old(slots)
    {
      if id in ircdSupervisors {
        ircdSupervisors := ircdSupervisors - {id};
        var ircd := slots[Key(id, Ircd)];
        if ircd.full {
          ircd := ircd.(full := false, shutdowns := ircd.shutdowns + 1);
        }
        slots := slots[Key(id, Ircd) := ircd.(owners := ircd.owners - {Owner.App})];
      }
    }

    method WorkshopInitFailed(id: Uuid)
      requires Inv(Model())
      requires id in initPending
      modifies this
      ensures Model() == old(InitFailed(Model(), id)) && Inv(Model())
      ensures pendingCloseWorkshop == old(pendingCloseWorkshop)
    {
      InitFailedKeepsInv(Model(), id);
      initPending := initPending - {id};
      var position := PositionOfId(workshops, id);
      if position.Some? {
        var pos := position.value;
        assert workshops[pos] in workshops;
        var irc := slots[Key(id, Irc)];
        slots := slots[Key(id, Irc) := irc.(owners := irc.owners - {Owner.App})];
        workshops := RemoveAt(workshops, pos);
        if workshops == [] {
          activeWorkshop := None;
        } else if activeWorkshop.Some? && activeWorkshop.value >= pos && activeWorkshop.value > 0 {
          activeWorkshop := Some(activeWorkshop.value - 1);
        }
      }
    }

    method WorkshopReady(id: Uuid, hasSpec: bool, hasIrc: bool)
      requires Inv(Model())
      requires id in initPending
      modifies this
      ensures Model() == old(Ready(Model(), id, hasSpec, hasIrc)) && Inv(Model())
      ensures pendingCloseWorkshop == old(pendingCloseWorkshop)
    {
      ReadyKeepsInv(Model(), id, hasSpec, hasIrc);
      initPending := initPending - {id};
      var position := PositionOfId(workshops, id);
      if position.None? {
        return;
      }
      assert workshops[position.value] in workshops;
      if hasSpec {
        ircdSupervisors := ircdSupervisors + {id};
        slots := slots[Key(id, Ircd) := Slot({Owner.App, Starter}, false, false, Starting, false, 0)];
      }
      if hasIrc {
        SpawnIrcStart(Key(id, Irc));
      }
    }

    method SpawnIrcStart(key: Key)
      requires key in slots
      modifies this`slots
      ensures slots == old(slots)[key := old(slots[key]).(owners := old(slots[key]).owners + {Starter}, phase := Starting)]
    {
      var irc := slots[key];
      slots := slots[key := irc.(owners := irc.owners + {Starter}, phase := Starting)];
    }

    // The end of a start task whose process is up: shut it down if the app's clone is gone.
    method InstallOrShutDown(key: Key)
      requires Inv(Model())
      requires key in slots && slots[key].phase == InHand
      modifies this`slots
      ensures Model() == old(Step(Model(), EInstall(key))) && Inv(Model())
      ensures slots[key].shutdowns == 1 <==> !InReach(Model(), key)
      ensures Held(Model(), key) <==> InReach(Model(), key)
    {
      InstallKeepsInv(Model(), key);
      PendingOwners(Model(), key);
      var slot := slots[key];
      assert SlotInv(Model(), key);
      if |slot.owners| == 1 {
        slot := slot.(shutdowns := slot.shutdowns + 1);
      } else {
        slot := slot.(full := true);
      }
      slots := slots[key := slot.(phase := Done, owners := slot.owners - {Starter})];
    }
  }
}
