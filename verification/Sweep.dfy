// src/cli.rs: `ryve sweep stalls`, which raises one flare ember per orphaned claim and looks back
// an hour for an earlier flare about the same spark. The look-up is a SQLite LIKE.
module Sweep {

  const LOOK_BACK_SECS: nat := 3600

  // ---- SQLite's LIKE -----------------------------------------------------------------------------

  // LIKE ignores the case of ASCII letters.
  function Lower(c: char): char {
    if 'A' <= c <= 'Z' then (c as int + 32) as char else c
  }

  predicate CharLike(p: char, c: char) {
    p == '_' || Lower(p) == Lower(c)
  }

  predicate Like(pattern: string, s: string)
    decreases |pattern| + |s|
  {
    if pattern == "" then s == ""
    else if pattern[0] == '%' then Like(pattern[1..], s) || (s != "" && Like(pattern, s[1..]))
    else s != "" && CharLike(pattern[0], s[0]) && Like(pattern[1..], s[1..])
  }

  predicate PrefixLike(q: string, s: string) {
    |q| <= |s| && forall i :: 0 <= i < |q| ==> CharLike(q[i], s[i])
  }

  lemma PrefixLikeCons(q: string, s: string)
    requires q != ""
    ensures PrefixLike(q, s) <==> s != "" && CharLike(q[0], s[0]) && PrefixLike(q[1..], s[1..])
  {
    if s != "" && CharLike(q[0], s[0]) && PrefixLike(q[1..], s[1..]) {
      forall i | 0 <= i < |q| ensures CharLike(q[i], s[i]) {
        if i > 0 { assert CharLike(q[1..][i - 1], s[1..][i - 1]); }
      }
    }
  }

  // A literal both sides share can be dropped.
  lemma PrefixLikeAfter(l: string, q: string, s: string)
    ensures PrefixLike(l + q, l + s) <==> PrefixLike(q, s)
  {
    if PrefixLike(l + q, l + s) {
      forall i | 0 <= i < |q| ensures CharLike(q[i], s[i]) {
        assert CharLike((l + q)[|l| + i], (l + s)[|l| + i]);
      }
    }
  }

  // `pattern%` without other percent signs compares character by character.
  lemma {:induction false} LikePrefix(q: string, s: string)
    requires '%' !in q
    ensures Like(q + "%", s) <==> PrefixLike(q, s)
    decreases |q|
  {
    if q == "" {
      PercentMatchesAll(s);
      assert q + "%" == "%";
    } else {
      assert (q + "%")[1..] == q[1..] + "%";
      PrefixLikeCons(q, s);
      if s != "" {
        LikePrefix(q[1..], s[1..]);
      }
    }
  }

  lemma {:induction false} PercentMatchesAll(s: string)
    ensures Like("%", s)
  {
    assert "%"[1..] == "";
    if s != "" { PercentMatchesAll(s[1..]); }
  }

  // A pattern matches any text that continues it literally, wildcards or not.
  lemma {:induction false} LikeOwnPrefix(q: string, rest: string)
    ensures Like(q + "%", q + rest)
    decreases |q|
  {
    if q == "" {
      PercentMatchesAll(rest);
      assert q + "%" == "%" && q + rest == rest;
    } else {
      LikeOwnPrefix(q[1..], rest);
      assert (q + "%")[1..] == q[1..] + "%" && (q + rest)[1..] == q[1..] + rest;
      if q[0] == '%' {
        var tail := (q + rest)[1..];
        assert Like((q + "%")[1..], tail);
        assert Like(q + "%", tail);
      }
    }
  }

  // ---- Whose flare a look-up finds ---------------------------------------------------------------

  const STALLED: string := "stalled-claim "

  function Prefix(sparkId: string): string { STALLED + sparkId + " " }

  // `details` is everything the sweep writes after the spark id.
  function Content(sparkId: string, details: string): string { Prefix(sparkId) + details }

  predicate Finds(sparkId: string, content: string) {
    Like(Prefix(sparkId) + "%", content)
  }

  predicate SameIgnoringCase(a: string, b: string) {
    |a| == |b| && forall i :: 0 <= i < |a| ==> Lower(a[i]) == Lower(b[i])
  }

  lemma FindsByPosition(a: string, b: string, details: string)
    requires '%' !in a
    ensures Finds(a, Content(b, details)) <==> PrefixLike(a + " ", b + " " + details)
  {
    LikePrefix(Prefix(a), Content(b, details));
    assert Prefix(a) == STALLED + (a + " ");
    assert Content(b, details) == STALLED + (b + " " + details);
    PrefixLikeAfter(STALLED, a + " ", b + " " + details);
  }

  // The blank after the one id meets the blank after the other.
  lemma BlanksMeet(a: string, b: string, details: string)
    requires PrefixLike(a + " ", b + " " + details)
    ensures |a| == |b| || ' ' in a || '_' in a || ' ' in b
  {
    var q, text := a + " ", b + " " + details;
    if |b| < |a| {
      assert CharLike(q[|b|], text[|b|]) && text[|b|] == ' ' && q[|b|] == a[|b|];
      assert a[|b|] in a;
    } else if |a| < |b| {
      assert CharLike(q[|a|], text[|a|]) && q[|a|] == ' ' && text[|a|] == b[|a|];
      assert b[|a|] in b;
    }
  }

  lemma EqualLengths(a: string, b: string, details: string)
    requires |a| == |b|
    ensures PrefixLike(a + " ", b + " " + details) <==> PrefixLike(a, b)
  {
    var q, text := a + " ", b + " " + details;
    if PrefixLike(q, text) {
      forall i | 0 <= i < |a| ensures CharLike(a[i], b[i]) { assert CharLike(q[i], text[i]); }
    }
    if PrefixLike(a, b) {
      forall i | 0 <= i < |q| ensures CharLike(q[i], text[i]) {
        if i < |a| { assert CharLike(a[i], b[i]); }
      }
    }
  }

  // With space-free ids and no wildcard in the one looked up, a flare is found for exactly the
  // spark ids that are the same up to the case of letters.
  lemma FindsSameSpark(a: string, b: string, details: string)
    requires ' ' !in a && ' ' !in b && '%' !in a && '_' !in a
    ensures Finds(a, Content(b, details)) <==> SameIgnoringCase(a, b)
  {
    FindsByPosition(a, b, details);
    if |a| == |b| {
      EqualLengths(a, b, details);
      assert forall i :: 0 <= i < |a| ==> a[i] in a;
    } else if PrefixLike(a + " ", b + " " + details) {
      BlanksMeet(a, b, details);
    }
  }

  // The end of an id: eight lower-case hex digits, after the workshop's name and a dash.
  predicate ShortId(h: string) {
    |h| == 8 && forall i :: 0 <= i < 8 ==> '0' <= h[i] <= '9' || 'a' <= h[i] <= 'f'
  }

  function BeforeTitle(role: string, session: string, endedAt: string): string {
    "role=" + role + " session=" + session + " ended_at=" + endedAt + " title="
  }

  // What the sweep writes about an orphan after its spark id.
  function Details(role: string, session: string, endedAt: string, title: string): string {
    BeforeTitle(role, session, endedAt) + title
  }

  // Within a workshop without a percent sign in its name ids are told apart exactly, even when the
  // name holds spaces or underscores.
  lemma FindsWithinWorkshop(name: string, hexA: string, hexB: string, details: string)
    requires '%' !in name && ShortId(hexA) && ShortId(hexB)
    ensures Finds(name + "-" + hexA, Content(name + "-" + hexB, details)) <==> hexA == hexB
  {
    var a, b := name + "-" + hexA, name + "-" + hexB;
    FindsByPosition(a, b, details);
    EqualLengths(a, b, details);
    PrefixLikeAfter(name + "-", hexA, hexB);
    assert forall i :: 0 <= i < 8 ==> hexA[i] in hexA && hexB[i] in hexB;
  }

  // A pattern with a percent sign after `head` skips to wherever the rest of its literal stands.
  lemma SkipsTo(head: string, skip: string, q: string, rest: string)
    requires '%' !in head
    ensures Like(head + ("%" + (q + "%")), head + (skip + (q + rest)))
  {
    LikeOwnPrefix(q, rest);
    SkipThenMatch(skip, q + "%", q + rest);
    LiteralThen(head, "%" + (q + "%"), skip + (q + rest));
  }

  // With a percent sign in the name, any spark's flare is found for any other spark of the workshop
  // when its title holds the rest of the other's id.
  lemma PercentInNameConfuses(name: string, i: nat, hexA: string, hexB: string, role: string, session: string, endedAt: string)
    requires i < |name| && name[i] == '%' && '%' !in name[..i]
    ensures var title := name[i + 1..] + "-" + hexA + " ";
      Finds(name + "-" + hexA, Content(name + "-" + hexB, Details(role, session, endedAt, title)))
  {
    var pre, post := name[..i], name[i + 1..];
    var q := post + "-" + hexA + " ";
    var before := BeforeTitle(role, session, endedAt);
    var skip := "%" + post + "-" + hexB + " " + before;
    assert name == pre + "%" + post;
    SkipsTo(STALLED + pre, skip, q, "");
    PatternParts(pre, post, hexA);
    ContentParts(pre, post, hexB, before, q);
  }

  lemma PatternParts(pre: string, post: string, hex: string)
    ensures Prefix(pre + "%" + post + "-" + hex) + "%" == (STALLED + pre) + ("%" + ((post + "-" + hex + " ") + "%"))
  {
    Regroup(STALLED, pre, "%", post + "-" + hex + " " + "%");
  }

  lemma ContentParts(pre: string, post: string, hex: string, before: string, q: string)
    ensures Content(pre + "%" + post + "-" + hex, before + q) == (STALLED + pre) + (("%" + post + "-" + hex + " " + before) + (q + ""))
  {
    Regroup(STALLED, pre, "%", post + "-" + hex + " " + before + q);
  }

  lemma Regroup(a: string, b: string, c: string, d: string)
    ensures a + (b + c + d) == (a + b) + (c + d)
  {
  }

  // Every two sparks of a workshop are told apart by their flares, whatever these say.
  ghost predicate ToldApart(name: string) {
    forall hexA, hexB, role, session, endedAt, title :: ShortId(hexA) && ShortId(hexB) ==>
      (Finds(name + "-" + hexA, Content(name + "-" + hexB, Details(role, session, endedAt, title))) <==> hexA == hexB)
  }

  lemma {:induction false} FirstPercent(name: string) returns (i: nat)
    requires '%' in name
    ensures i < |name| && name[i] == '%' && '%' !in name[..i]
  {
    if name[0] == '%' {
      i := 0;
    } else {
      var j := FirstPercent(name[1..]);
      i := j + 1;
      assert name[..i] == [name[0]] + name[1..][..j];
    }
  }

  // The flares of a workshop are told apart if and only if its name has no percent sign.
  lemma ToldApartExactly(name: string)
    ensures ToldApart(name) <==> '%' !in name
  {
    if '%' in name {
      var i := FirstPercent(name);
      PercentInNameConfuses(name, i, "00000000", "11111111", "", "", "");
      assert "00000000"[0] != "11111111"[0];
      assert ShortId("00000000") && ShortId("11111111");
    } else {
      forall hexA, hexB, role, session, endedAt, title | ShortId(hexA) && ShortId(hexB)
        ensures Finds(name + "-" + hexA, Content(name + "-" + hexB, Details(role, session, endedAt, title))) <==> hexA == hexB
      {
        FindsWithinWorkshop(name, hexA, hexB, Details(role, session, endedAt, title));
      }
    }
  }

  lemma {:induction false} SkipThenMatch(skip: string, p: string, s: string)
    requires Like(p, s)
    ensures Like("%" + p, skip + s)
    decreases |skip|
  {
    assert ("%" + p)[1..] == p;
    if skip == "" {
      assert skip + s == s;
    } else {
      SkipThenMatch(skip[1..], p, s);
      assert (skip + s)[1..] == skip[1..] + s;
    }
  }

  lemma {:induction false} LiteralThen(q: string, p: string, s: string)
    requires '%' !in q && Like(p, s)
    ensures Like(q + p, q + s)
    decreases |q|
  {
    if q == "" {
      assert q + p == p && q + s == s;
    } else {
      LiteralThen(q[1..], p, s);
      assert (q + p)[1..] == q[1..] + p && (q + s)[1..] == q[1..] + s;
    }
  }

  // ---- The ember table ---------------------------------------------------------------------------

  datatype Ember = Ember(flare: bool, content: string, createdMs: nat, ttlSecs: nat)

  // `datetime(..)` drops fractions of a second.
  function Secs(ms: nat): nat { ms / 1000 }

  predicate Expired(e: Ember, nowMs: nat) {
    Secs(e.createdMs) + e.ttlSecs <= Secs(nowMs)
  }

  predicate Recent(e: Ember, sparkId: string, nowMs: nat) {
    e.flare && Finds(sparkId, e.content) && !Expired(e, nowMs) && Secs(e.createdMs) + LOOK_BACK_SECS > Secs(nowMs)
  }

  predicate AnyRecent(embers: seq<Ember>, sparkId: string, nowMs: nat) {
    exists k :: 0 <= k < |embers| && Recent(embers[k], sparkId, nowMs)
  }

  datatype Orphan = Orphan(sparkId: string, sessionId: string, details: string)

  // The clock at an orphan's look-up and at its insert, and whether the insert succeeds.
  datatype Tick = Tick(lookUpMs: nat, createMs: nat, ok: bool)

  // A flare this command created, kept after the ember itself expired.
  datatype Flare = Flare(sparkId: string, atMs: nat)

  datatype State = State(embers: seq<Ember>, log: seq<Flare>, clockMs: nat)

  function SweepOne(st: State, o: Orphan, t: Tick): State {
    if AnyRecent(st.embers, o.sparkId, t.lookUpMs) || !t.ok then st.(clockMs := t.createMs)
    else State(st.embers + [Ember(true, Content(o.sparkId, o.details), t.createMs, 3600)],
               st.log + [Flare(o.sparkId, t.createMs)], t.createMs)
  }

  function SweepAll(st: State, orphans: seq<Orphan>, ticks: seq<Tick>): State
    requires |orphans| == |ticks|
  {
    if orphans == [] then st
    else SweepOne(SweepAll(st, orphans[..|orphans| - 1], ticks[..|ticks| - 1]), orphans[|orphans| - 1], ticks[|ticks| - 1])
  }

  ghost predicate Monotone(clockMs: nat, ticks: seq<Tick>) {
    && (forall k :: 0 <= k < |ticks| ==> clockMs <= ticks[k].lookUpMs <= ticks[k].createMs)
    && (forall j, k :: 0 <= j < k < |ticks| ==> ticks[j].createMs <= ticks[k].lookUpMs)
  }

  function SweepExpired(st: State, nowMs: nat): State {
    st.(embers := Unexpired(st.embers, nowMs), clockMs := nowMs)
  }

  function Unexpired(embers: seq<Ember>, nowMs: nat): seq<Ember> {
    if embers == [] then []
    else Unexpired(embers[..|embers| - 1], nowMs)
         + if Expired(embers[|embers| - 1], nowMs) then [] else [embers[|embers| - 1]]
  }

  datatype Event =
    | Sweep(orphans: seq<Orphan>, ticks: seq<Tick>)
    | Expire(nowMs: nat)                  // `ryve ember sweep`
    | Emit(ember: Ember)                  // anyone else's ember

  ghost predicate Enabled(st: State, e: Event) {
    match e
    case Sweep(orphans, ticks) => |orphans| == |ticks| && Monotone(st.clockMs, ticks)
    case Expire(nowMs) => st.clockMs <= nowMs
    case Emit(ember) => st.clockMs <= ember.createdMs
  }

  ghost function Step(st: State, e: Event): State
    requires Enabled(st, e)
  {
    match e
    case Sweep(orphans, ticks) => SweepAll(st, orphans, ticks)
    case Expire(nowMs) => SweepExpired(st, nowMs)
    case Emit(ember) => st.(embers := st.embers + [ember], clockMs := ember.createdMs)
  }

  ghost predicate Valid(st: State, events: seq<Event>)
    decreases |events|
  {
    events == [] || (Enabled(st, events[0]) && Valid(Step(st, events[0]), events[1..]))
  }

  ghost function Run(st: State, events: seq<Event>): State
    requires Valid(st, events)
    decreases |events|
  {
    if events == [] then st else Run(Step(st, events[0]), events[1..])
  }

  // The ember of this logged flare is still there.
  ghost predicate Standing(embers: seq<Ember>, f: Flare) {
    exists k, details :: 0 <= k < |embers| && embers[k] == Ember(true, Content(f.sparkId, details), f.atMs, 3600)
  }

  ghost predicate Spaced(log: seq<Flare>) {
    forall i, j :: 0 <= i < j < |log| && log[i].sparkId == log[j].sparkId ==>
      Secs(log[j].atMs) >= Secs(log[i].atMs) + LOOK_BACK_SECS
  }

  ghost predicate Inv(st: State) {
    && Spaced(st.log)
    && (forall i :: 0 <= i < |st.log| ==> st.log[i].atMs <= st.clockMs)
    && (forall i :: 0 <= i < |st.log| ==>
          Standing(st.embers, st.log[i]) || Secs(st.log[i].atMs) + LOOK_BACK_SECS <= Secs(st.clockMs))
  }

  // A standing flare is recent for its own spark until the look-back has passed.
  lemma StandingIsRecent(embers: seq<Ember>, f: Flare, nowMs: nat)
    requires Standing(embers, f) && Secs(nowMs) < Secs(f.atMs) + LOOK_BACK_SECS
    ensures AnyRecent(embers, f.sparkId, nowMs)
  {
    var k, details :| 0 <= k < |embers| && embers[k] == Ember(true, Content(f.sparkId, details), f.atMs, 3600);
    LikeOwnPrefix(Prefix(f.sparkId), details);
    assert Recent(embers[k], f.sparkId, nowMs);
  }

  lemma StandingStays(embers: seq<Ember>, e: Ember, f: Flare)
    ensures Standing(embers, f) ==> Standing(embers + [e], f)
    ensures forall details :: e == Ember(true, Content(f.sparkId, details), f.atMs, 3600) ==> Standing(embers + [e], f)
  {
    if k, details :| 0 <= k < |embers| && embers[k] == Ember(true, Content(f.sparkId, details), f.atMs, 3600) {
      assert (embers + [e])[k] == Ember(true, Content(f.sparkId, details), f.atMs, 3600);
    }
    forall details | e == Ember(true, Content(f.sparkId, details), f.atMs, 3600) ensures Standing(embers + [e], f) {
      assert (embers + [e])[|embers|] == Ember(true, Content(f.sparkId, details), f.atMs, 3600);
    }
  }

  lemma SweepOneKeepsInv(st: State, o: Orphan, t: Tick)
    requires Inv(st) && st.clockMs <= t.lookUpMs <= t.createMs
    ensures Inv(SweepOne(st, o, t))
  {
    var st' := SweepOne(st, o, t);
    if st'.log != st.log {
      var e := st'.embers[|st.embers|];
      forall i | 0 <= i < |st.log| && st.log[i].sparkId == o.sparkId
        ensures Secs(st.log[i].atMs) + LOOK_BACK_SECS <= Secs(t.lookUpMs)
      {
        if Standing(st.embers, st.log[i]) && Secs(t.lookUpMs) < Secs(st.log[i].atMs) + LOOK_BACK_SECS {
          StandingIsRecent(st.embers, st.log[i], t.lookUpMs);
        }
      }
      forall i | 0 <= i < |st'.log|
        ensures Standing(st'.embers, st'.log[i]) || Secs(st'.log[i].atMs) + LOOK_BACK_SECS <= Secs(st'.clockMs)
      {
        StandingStays(st.embers, e, st'.log[i]);
        assert i == |st.log| ==> e == Ember(true, Content(st'.log[i].sparkId, o.details), st'.log[i].atMs, 3600);
      }
    }
  }

  lemma {:induction false} SweepAllKeepsInv(st: State, orphans: seq<Orphan>, ticks: seq<Tick>)
    requires Inv(st) && |orphans| == |ticks| && Monotone(st.clockMs, ticks)
    ensures Inv(SweepAll(st, orphans, ticks))
    ensures SweepAll(st, orphans, ticks).clockMs == if ticks == [] then st.clockMs else ticks[|ticks| - 1].createMs
  {
    if orphans != [] {
      var n := |orphans| - 1;
      SweepAllKeepsInv(st, orphans[..n], ticks[..n]);
      SweepOneKeepsInv(SweepAll(st, orphans[..n], ticks[..n]), orphans[n], ticks[n]);
    }
  }

  lemma {:induction false} UnexpiredKeeps(embers: seq<Ember>, nowMs: nat, k: nat)
    requires k < |embers| && !Expired(embers[k], nowMs)
    ensures embers[k] in Unexpired(embers, nowMs)
  {
    if k < |embers| - 1 {
      UnexpiredKeeps(embers[..|embers| - 1], nowMs, k);
    }
  }

  lemma StandingUntilExpired(embers: seq<Ember>, nowMs: nat, f: Flare)
    requires Standing(embers, f)
    ensures Standing(Unexpired(embers, nowMs), f) || Secs(f.atMs) + LOOK_BACK_SECS <= Secs(nowMs)
  {
    var k, details :| 0 <= k < |embers| && embers[k] == Ember(true, Content(f.sparkId, details), f.atMs, 3600);
    if !Expired(embers[k], nowMs) {
      UnexpiredKeeps(embers, nowMs, k);
      var left := Unexpired(embers, nowMs);
      var m :| 0 <= m < |left| && left[m] == embers[k];
    }
  }

  lemma StepKeepsInv(st: State, e: Event)
    requires Inv(st) && Enabled(st, e)
    ensures Inv(Step(st, e))
  {
    match e
    case Sweep(orphans, ticks) => SweepAllKeepsInv(st, orphans, ticks);
    case Expire(nowMs) =>
      forall i | 0 <= i < |st.log| && Standing(st.embers, st.log[i])
        ensures Standing(Unexpired(st.embers, nowMs), st.log[i]) || Secs(st.log[i].atMs) + LOOK_BACK_SECS <= Secs(nowMs)
      {
        StandingUntilExpired(st.embers, nowMs, st.log[i]);
      }
    case Emit(ember) =>
      forall i | 0 <= i < |st.log| && Standing(st.embers, st.log[i])
        ensures Standing(st.embers + [ember], st.log[i])
      {
        StandingStays(st.embers, ember, st.log[i]);
      }
  }

  // Over any run of sweeps, expiries and foreign embers, two flares for the same spark are at
  // least the look-back apart on the whole-second clock, so more than 3599 seconds apart.
  lemma {:induction false} FlaresAreSpaced(st: State, events: seq<Event>)
    requires Inv(st) && Valid(st, events)
    ensures Inv(Run(st, events))
    ensures var log := Run(st, events).log;
      forall i, j :: 0 <= i < j < |log| && log[i].sparkId == log[j].sparkId ==> log[j].atMs - log[i].atMs > 3_599_000
    decreases |events|
  {
    if events != [] {
      StepKeepsInv(st, events[0]);
      FlaresAreSpaced(Step(st, events[0]), events[1..]);
    }
  }

  // A full hour is not guaranteed: 0.999 s and 3600.000 s are different hours to `datetime`. Two sweeps
  // over one orphan, from the empty table.
  lemma LessThanAnHourApart(o: Orphan)
    ensures var start := State([], [], 0);
      var events := [Sweep([o], [Tick(999, 999, true)]), Sweep([o], [Tick(3_600_000, 3_600_000, true)])];
      && Inv(start) && Valid(start, events)
      && Run(start, events).log == [Flare(o.sparkId, 999), Flare(o.sparkId, 3_600_000)]
  {
    var start := State([], [], 0);
    var first, second := Tick(999, 999, true), Tick(3_600_000, 3_600_000, true);
    SweepOfOne(start, o, first);
    var st := SweepOne(start, o, first);
    assert st == State([Ember(true, Content(o.sparkId, o.details), 999, 3600)], [Flare(o.sparkId, 999)], 999);
    assert !AnyRecent(st.embers, o.sparkId, 3_600_000);
    SweepOfOne(st, o, second);
    OneEvent(st, Sweep([o], [second]));
    var events := [Sweep([o], [first]), Sweep([o], [second])];
    assert events[1..] == [Sweep([o], [second])];
  }

  lemma SweepOfOne(st: State, o: Orphan, t: Tick)
    ensures SweepAll(st, [o], [t]) == SweepOne(st, o, t)
  {
    assert [o][..0] == [] && [t][..0] == [];
    assert SweepAll(st, [], []) == st;
  }

  lemma OneEvent(st: State, e: Event)
    requires Enabled(st, e)
    ensures Valid(st, [e]) && Run(st, [e]) == Step(st, e)
  {
    assert [e][1..] == [];
    assert Valid(Step(st, e), []);
    assert Run(Step(st, e), []) == Step(st, e);
  }

  // ---- After a sweep -----------------------------------------------------------------------------

  // A flare that a look-up for this orphan finds, created at its turn or within the hour before it.
  ghost predicate Covered(embers: seq<Ember>, o: Orphan, t: Tick) {
    exists k :: 0 <= k < |embers| && Covers(embers[k], o, t)
  }

  ghost predicate Covers(e: Ember, o: Orphan, t: Tick) {
    && e.flare && Finds(o.sparkId, e.content)
    && (e.createdMs / 1000 + 3600 > t.lookUpMs / 1000 || e.createdMs == t.createMs)
  }

  lemma CoveredStays(before: seq<Ember>, after: seq<Ember>, o: Orphan, t: Tick)
    requires before <= after && Covered(before, o, t)
    ensures Covered(after, o, t)
  {
    var k :| 0 <= k < |before| && Covers(before[k], o, t);
    assert after[k] == before[k];
  }

  lemma SweepOneCovers(st: State, o: Orphan, t: Tick)
    requires t.ok
    ensures st.embers <= SweepOne(st, o, t).embers && Covered(SweepOne(st, o, t).embers, o, t)
  {
    var after := SweepOne(st, o, t).embers;
    if AnyRecent(st.embers, o.sparkId, t.lookUpMs) {
      var k :| 0 <= k < |st.embers| && Recent(st.embers[k], o.sparkId, t.lookUpMs);
      assert after[k] == st.embers[k] && Covers(after[k], o, t);
    } else {
      LikeOwnPrefix(Prefix(o.sparkId), o.details);
      assert after[|st.embers|] == Ember(true, Content(o.sparkId, o.details), t.createMs, 3600);
      assert Covers(after[|st.embers|], o, t);
    }
  }

  // A sweep only appends, and what it appends are flares of its own orphans.
  lemma {:induction false} OnlyOrphansFlagged(st: State, orphans: seq<Orphan>, ticks: seq<Tick>, m: nat)
    requires |orphans| == |ticks| && |st.embers| <= m < |SweepAll(st, orphans, ticks).embers|
    ensures st.embers <= SweepAll(st, orphans, ticks).embers
    ensures var e := SweepAll(st, orphans, ticks).embers[m];
      exists i :: 0 <= i < |orphans|
        && e == Ember(true, "stalled-claim " + orphans[i].sparkId + " " + orphans[i].details, ticks[i].createMs, 3600)
  {
    if orphans != [] {
      var n := |orphans| - 1;
      var before := SweepAll(st, orphans[..n], ticks[..n]);
      if m < |before.embers| {
        OnlyOrphansFlagged(st, orphans[..n], ticks[..n], m);
        var i :| 0 <= i < n && before.embers[m] ==
          Ember(true, "stalled-claim " + orphans[..n][i].sparkId + " " + orphans[..n][i].details, ticks[..n][i].createMs, 3600);
        assert orphans[..n][i] == orphans[i] && ticks[..n][i] == ticks[i];
      } else {
        SweepAppends(st, orphans[..n], ticks[..n]);
        assert SweepAll(st, orphans, ticks).embers[m] ==
          Ember(true, "stalled-claim " + orphans[n].sparkId + " " + orphans[n].details, ticks[n].createMs, 3600);
      }
    }
  }

  lemma {:induction false} SweepAppends(st: State, orphans: seq<Orphan>, ticks: seq<Tick>)
    requires |orphans| == |ticks|
    ensures st.embers <= SweepAll(st, orphans, ticks).embers
  {
    if orphans != [] { SweepAppends(st, orphans[..|orphans| - 1], ticks[..|ticks| - 1]); }
  }

  // `ryve ember sweep` removes exactly the embers whose time is over.
  lemma {:induction false} ExpiryExactly(embers: seq<Ember>, nowMs: nat, e: Ember)
    ensures e in Unexpired(embers, nowMs) <==> e in embers && e.createdMs / 1000 + e.ttlSecs > nowMs / 1000
  {
    if embers != [] {
      var init := embers[..|embers| - 1];
      ExpiryExactly(init, nowMs, e);
      assert embers == init + [embers[|embers| - 1]];
    }
  }

  // After a sweep whose inserts succeed every orphan has a flare from within the window.
  lemma {:induction false} EveryOrphanCovered(st: State, orphans: seq<Orphan>, ticks: seq<Tick>, i: nat)
    requires |orphans| == |ticks| && i < |orphans|
    requires forall k :: 0 <= k < |ticks| ==> ticks[k].ok
    ensures st.embers <= SweepAll(st, orphans, ticks).embers
    ensures Covered(SweepAll(st, orphans, ticks).embers, orphans[i], ticks[i])
  {
    var n := |orphans| - 1;
    var before := SweepAll(st, orphans[..n], ticks[..n]);
    SweepOneCovers(before, orphans[n], ticks[n]);
    if n > 0 { EveryOrphanCovered(st, orphans[..n], ticks[..n], if i < n then i else 0); }
    if i < n { CoveredStays(before.embers, SweepAll(st, orphans, ticks).embers, orphans[i], ticks[i]); }
  }

  // ---- The command -------------------------------------------------------------------------------

  datatype Claim = Claim(sparkId: string, sessionId: string, active: bool, sessionEnded: bool, sparkClosed: bool, details: string)

  predicate Orphaned(c: Claim) {
    c.active && c.sessionEnded && !c.sparkClosed
  }

  function Orphans(claims: seq<Claim>): seq<Orphan> {
    if claims == [] then []
    else
      var c := claims[|claims| - 1];
      Orphans(claims[..|claims| - 1]) + if Orphaned(c) then [Orphan(c.sparkId, c.sessionId, c.details)] else []
  }

  // The orphans are exactly the active claims of ended sessions on sparks that are not closed.
  lemma {:induction false} OrphansExactly(claims: seq<Claim>, o: Orphan)
    ensures o in Orphans(claims) <==>
      exists i :: 0 <= i < |claims| && claims[i].active && claims[i].sessionEnded && !claims[i].sparkClosed
        && o == Orphan(claims[i].sparkId, claims[i].sessionId, claims[i].details)
  {
    if claims != [] {
      var init := claims[..|claims| - 1];
      OrphansExactly(init, o);
      assert forall i :: 0 <= i < |init| ==> init[i] == claims[i];
    }
  }

  // Some orphan is about this claim's session and spark.
  ghost predicate Named(orphans: seq<Orphan>, c: Claim) {
    exists i :: 0 <= i < |orphans| && orphans[i].sessionId == c.sessionId && orphans[i].sparkId == c.sparkId
  }

  // Some active claim of an ended session, on a spark that is not closed, has this claim's session and spark.
  ghost predicate SharesOrphan(claims: seq<Claim>, c: Claim) {
    exists j :: 0 <= j < |claims| && claims[j].active && claims[j].sessionEnded && !claims[j].sparkClosed
                && claims[j].sessionId == c.sessionId && claims[j].sparkId == c.sparkId
  }

  lemma NamedSnoc(orphans: seq<Orphan>, o: Orphan, c: Claim)
    ensures Named(orphans + [o], c) <==> Named(orphans, c) || (o.sessionId == c.sessionId && o.sparkId == c.sparkId)
  {
    var longer := orphans + [o];
    if i :| 0 <= i < |orphans| && orphans[i].sessionId == c.sessionId && orphans[i].sparkId == c.sparkId {
      assert longer[i] == orphans[i];
    }
    if i :| 0 <= i < |longer| && longer[i].sessionId == c.sessionId && longer[i].sparkId == c.sparkId {
      assert i == |orphans| || longer[i] == orphans[i];
    }
    assert longer[|orphans|] == o;
  }

  lemma SharesSnoc(claims: seq<Claim>, last: Claim, c: Claim)
    ensures SharesOrphan(claims + [last], c) <==>
            SharesOrphan(claims, c) || (Orphaned(last) && last.sessionId == c.sessionId && last.sparkId == c.sparkId)
  {
    var longer := claims + [last];
    if j :| 0 <= j < |claims| && Orphaned(claims[j]) && claims[j].sessionId == c.sessionId && claims[j].sparkId == c.sparkId {
      assert longer[j] == claims[j];
    }
    if j :| 0 <= j < |longer| && Orphaned(longer[j]) && longer[j].sessionId == c.sessionId && longer[j].sparkId == c.sparkId {
      assert j == |claims| || longer[j] == claims[j];
    }
    assert longer[|claims|] == last;
  }

  lemma {:induction false} OrphansNamed(claims: seq<Claim>, c: Claim)
    ensures Named(Orphans(claims), c) <==> SharesOrphan(claims, c)
  {
    if claims != [] {
      var init, last := claims[..|claims| - 1], claims[|claims| - 1];
      assert claims == init + [last];
      OrphansNamed(init, c);
      SharesSnoc(init, last, c);
      if Orphaned(last) {
        NamedSnoc(Orphans(init), Orphan(last.sparkId, last.sessionId, last.details), c);
      } else {
        assert Orphans(claims) == Orphans(init);
      }
    }
  }

  lemma {:induction false} NoOrphans(claims: seq<Claim>)
    requires forall k :: 0 <= k < |claims| ==> !Orphaned(claims[k])
    ensures Orphans(claims) == []
  {
    if claims != [] { NoOrphans(claims[..|claims| - 1]); }
  }

  function ReleasedIf(c: Claim, released: bool): Claim {
    c.(active := c.active && !released)
  }

  class Workgraph {
    var claims: seq<Claim>
    var embers: seq<Ember>

    method Abandon(sessionId: string, sparkId: string)
      modifies this`claims
      ensures |claims| == |old(claims)|
      ensures forall i :: 0 <= i < |claims| ==>
        claims[i] == ReleasedIf(old(claims)[i], old(claims)[i].sessionId == sessionId && old(claims)[i].sparkId == sparkId)
    {
      claims := seq(|claims|, i requires 0 <= i < |claims| reads this =>
        ReleasedIf(claims[i], claims[i].sessionId == sessionId && claims[i].sparkId == sparkId));
    }

    method RaiseFlares(orphans: seq<Orphan>, ticks: seq<Tick>, ghost log: seq<Flare>, ghost clockMs: nat) returns (emitted: nat)
      requires |ticks| == |orphans|
      modifies this`embers
      ensures embers == SweepAll(State(old(embers), log, clockMs), orphans, ticks).embers
      ensures emitted == |embers| - |old(embers)|
    {
      emitted := 0;
      ghost var st := State(embers, log, clockMs);
      for k := 0 to |orphans|
        invariant embers == SweepAll(st, orphans[..k], ticks[..k]).embers
        invariant emitted == |embers| - |old(embers)|
      {
        var o, t := orphans[k], ticks[k];
        assert orphans[..k + 1][..k] == orphans[..k] && ticks[..k + 1][..k] == ticks[..k];
        if AnyRecent(embers, o.sparkId, t.lookUpMs) {
          continue;
        }
        if t.ok {
          embers := embers + [Ember(true, Content(o.sparkId, o.details), t.createMs, 3600)];
          emitted := emitted + 1;
        }
      }
      assert orphans[..|orphans|] == orphans && ticks[..|ticks|] == ticks;
    }

    // With `--abandon` exactly the active claims that share session and spark with an orphan are released,
    // and no orphan is left; without it no claim changes.
    method SweepStalls(abandon: bool, ticks: seq<Tick>, ghost log: seq<Flare>, ghost clockMs: nat) returns (emitted: nat)
      requires |ticks| == |Orphans(claims)|
      modifies this
      ensures embers == SweepAll(State(old(embers), log, clockMs), old(Orphans(claims)), ticks).embers
      ensures emitted == |embers| - |old(embers)|
      ensures |claims| == |old(claims)|
      ensures forall i :: 0 <= i < |claims| ==>
        var c := old(claims)[i];
        claims[i] == c.(active := c.active && !(abandon && SharesOrphan(old(claims), c)))
      ensures abandon ==> forall i :: 0 <= i < |claims| ==> !(claims[i].active && claims[i].sessionEnded && !claims[i].sparkClosed)
    {
      var orphans := Orphans(claims);
      ghost var before := claims;
      emitted := RaiseFlares(orphans, ticks, log, clockMs);
      if abandon {
        AbandonOrphans(orphans);
        forall i | 0 <= i < |claims|
          ensures !Orphaned(claims[i])
        {
          if Orphaned(before[i]) { assert SharesOrphan(before, before[i]); }
        }
      }
    }

    method AbandonOrphans(orphans: seq<Orphan>)
      requires orphans == Orphans(claims)
      modifies this`claims
      ensures |claims| == |old(claims)|
      ensures forall i :: 0 <= i < |claims| ==>
        claims[i] == ReleasedIf(old(claims)[i], SharesOrphan(old(claims), old(claims)[i]))
      ensures Orphans(claims) == []
    {
      ghost var before := claims;
      for k := 0 to |orphans|
        invariant |claims| == |before|
        invariant forall i :: 0 <= i < |claims| ==> claims[i] == ReleasedIf(before[i], Named(orphans[..k], before[i]))
      {
        var o := orphans[k];
        assert orphans[..k + 1] == orphans[..k] + [o];
        forall i | 0 <= i < |before|
          ensures Named(orphans[..k + 1], before[i]) <==>
                  Named(orphans[..k], before[i]) || (o.sessionId == before[i].sessionId && o.sparkId == before[i].sparkId)
        {
          NamedSnoc(orphans[..k], o, before[i]);
        }
        Abandon(o.sessionId, o.sparkId);
      }
      assert orphans[..|orphans|] == orphans;
      forall i | 0 <= i < |claims|
        ensures claims[i] == ReleasedIf(before[i], SharesOrphan(before, before[i])) && !Orphaned(claims[i])
      {
        OrphansNamed(before, before[i]);
        assert Orphaned(before[i]) ==> SharesOrphan(before, before[i]);
      }
      NoOrphans(claims);
    }
  }
}
