// src/app.rs: the handover of one slot with its steps pulled apart. The start task checks the
// strong count and installs in two steps; closing takes the slot's content and drops the app's
// `Arc` in two steps. Spark loads clone the `Arc` for the length of one UI handler.
module FineHandover {

  datatype StarterPc = Checking | Passed | Finished

  datatype CloserPc = Untouched | Taken | Dropped

  datatype State = State(starter: StarterPc, closer: CloserPc, handlerClone: bool, full: bool, shutdowns: nat)

  datatype Event =
    | Check        // `Arc::strong_count(..) == 1`, and shutting down if so
    | Install      // `*slot = Some(..)`
    | Take         // the close handler's `slot.take()`, and shutting down what was taken
    | Drop         // the app's clone is dropped
    | LoadBegins   // a UI handler clones the slot ...
    | LoadEnds     // ... and drops its clone again

  const START := State(Checking, Untouched, false, false, 0)

  function StrongCount(st: State): nat {
    (if st.starter != Finished then 1 else 0)
    + (if st.closer != Dropped then 1 else 0)
    + (if st.handlerClone then 1 else 0)
  }

  // Closing and loading run on the UI thread, so neither starts inside the other.
  predicate Enabled(st: State, e: Event) {
    match e
    case Check => st.starter == Checking
    case Install => st.starter == Passed
    case Take => st.closer == Untouched && !st.handlerClone
    case Drop => st.closer == Taken
    case LoadBegins => st.closer == Untouched && !st.handlerClone
    case LoadEnds => st.handlerClone
  }

  function Step(st: State, e: Event): State
    requires Enabled(st, e)
  {
    match e
    case Check => if StrongCount(st) == 1 then st.(starter := Finished, shutdowns := st.shutdowns + 1)
                  else st.(starter := Passed)
    case Install => st.(starter := Finished, full := true)
    case Take => st.(closer := Taken, full := false, shutdowns := st.shutdowns + if st.full then 1 else 0)
    case Drop => st.(closer := Dropped)
    case LoadBegins => st.(handlerClone := true)
    case LoadEnds => st.(handlerClone := false)
  }

  predicate Valid(s: seq<Event>)
    decreases |s|, 0
  {
    s == [] || (Valid(s[..|s| - 1]) && Enabled(Run(s[..|s| - 1]), s[|s| - 1]))
  }

  function Run(s: seq<Event>): State
    requires Valid(s)
    decreases |s|, 1
  {
    if s == [] then START else Step(Run(s[..|s| - 1]), s[|s| - 1])
  }

  predicate Complete(st: State) {
    st.starter == Finished && st.closer == Dropped
  }

  ghost predicate Before(s: seq<Event>, a: Event, b: Event) {
    exists i, j :: 0 <= i < j < |s| && s[i] == a && s[j] == b
  }

  lemma BeforeSnoc(s: seq<Event>, e: Event, a: Event, b: Event)
    ensures Before(s + [e], a, b) <==> Before(s, a, b) || (e == b && a in s)
  {
    var s' := s + [e];
    if Before(s, a, b) {
      var i, j :| 0 <= i < j < |s| && s[i] == a && s[j] == b;
      assert s'[i] == a && s'[j] == b;
    }
    if e == b && a in s {
      var i :| 0 <= i < |s| && s[i] == a;
      assert s'[i] == a && s'[|s|] == b;
    }
    if i, j :| 0 <= i < j < |s'| && s'[i] == a && s'[j] == b {
      assert s[i] == a;
      if j < |s| { assert s[j] == b; }
    }
  }

  // What a schedule so far says about the state it reached.
  ghost predicate Explains(s: seq<Event>, st: State) {
    && (Check in s <==> st.starter != Checking)
    && (Take in s <==> st.closer != Untouched)
    && (Drop in s <==> st.closer == Dropped)
    && (Drop in s ==> Take in s)
    && (Install in s ==> st.starter == Finished)
    && (st.handlerClone ==> st.closer == Untouched)
    && (if Install in s then
          && (Drop in s ==> Before(s, Check, Drop))
          && st.full == (Before(s, Take, Install) || Take !in s)
          && st.shutdowns == (if st.full then 0 else 1)
        else
          && !st.full && !Before(s, Take, Install)
          && (st.starter == Passed ==> (Drop in s ==> Before(s, Check, Drop)))
          && (st.starter == Finished ==> Drop in s && !Before(s, Check, Drop))
          && st.shutdowns == (if st.starter == Finished then 1 else 0))
    && (st.starter == Checking ==> !Before(s, Check, Drop))
  }

  lemma {:induction false} RunExplained(s: seq<Event>)
    requires Valid(s)
    ensures Explains(s, Run(s))
  {
    if s != [] {
      var s0, e := s[..|s| - 1], s[|s| - 1];
      RunExplained(s0);
      assert s == s0 + [e];
      BeforeSnoc(s0, e, Check, Drop);
      BeforeSnoc(s0, e, Take, Install);
    }
  }

  // The process is lost in exactly the schedules where the check came before the app's clone was
  // dropped and yet the close had already looked into the slot when the process was installed.
  // In all others it is shut down exactly once.
  lemma LostExactlyInTheGap(s: seq<Event>)
    requires Valid(s) && Complete(Run(s))
    ensures Run(s).shutdowns == 0 <==> Before(s, Check, Drop) && Before(s, Take, Install)
    ensures Run(s).shutdowns <= 1
  {
    RunExplained(s);
  }

  // Joining the check with its install does not close the gap, nor does joining the take with
  // the drop: a schedule of each kind loses the process.
  lemma OnePairAtomicIsNotEnough()
    ensures var s := [Take, Check, Install, Drop]; Valid(s) && Complete(Run(s)) && Run(s).shutdowns == 0
    ensures var s := [Check, Take, Drop, Install]; Valid(s) && Complete(Run(s)) && Run(s).shutdowns == 0
  {
    RunOfFour(Take, Check, Install, Drop);
    RunOfFour(Check, Take, Drop, Install);
  }

  lemma RunOfFour(a: Event, b: Event, c: Event, d: Event)
    requires Enabled(START, a) && Enabled(Step(START, a), b) && Enabled(Step(Step(START, a), b), c)
    requires Enabled(Step(Step(Step(START, a), b), c), d)
    ensures Valid([a, b, c, d]) && Run([a, b, c, d]) == Step(Step(Step(Step(START, a), b), c), d)
  {
    assert [] + [a] == [a] && [a] + [b] == [a, b] && [a, b] + [c] == [a, b, c] && [a, b, c] + [d] == [a, b, c, d];
    Then([], a);
    Then([a], b);
    Then([a, b], c);
    Then([a, b, c], d);
  }

  lemma Then(s: seq<Event>, e: Event)
    requires Valid(s) && Enabled(Run(s), e)
    ensures Valid(s + [e]) && Run(s + [e]) == Step(Run(s), e)
  {
    assert (s + [e])[..|s|] == s;
  }

  // With both pairs joined every complete schedule shuts the process down exactly once.
  lemma BothPairsAtomicIsSafe(s: seq<Event>)
    requires Valid(s) && Complete(Run(s))
    requires forall i :: 0 < i < |s| && s[i] == Install ==> s[i - 1] == Check
    requires forall i :: 0 < i < |s| && s[i] == Drop ==> s[i - 1] == Take
    ensures Run(s).shutdowns == 1
  {
    RunExplained(s);
    LostExactlyInTheGap(s);
    if Before(s, Take, Install) {
      TakenFirstMeansDroppedFirst(s);
    }
  }

  lemma TakenFirstMeansDroppedFirst(s: seq<Event>)
    requires Valid(s) && Drop in s && Before(s, Take, Install)
    requires forall i :: 0 < i < |s| && s[i] == Install ==> s[i - 1] == Check
    requires forall i :: 0 < i < |s| && s[i] == Drop ==> s[i - 1] == Take
    ensures !Before(s, Check, Drop)
  {
    var d :| 0 <= d < |s| && s[d] == Drop;
    var t, j :| 0 <= t < j < |s| && s[t] == Take && s[j] == Install;
    DropFollowsTake(s, d);
    Once(s, d, Drop);
    Once(s, d - 1, Take);
    Once(s, j - 1, Check);
    assert t == d - 1 && t < j - 1;
  }

  lemma {:induction false} PrefixValid(s: seq<Event>, n: nat)
    requires Valid(s) && n <= |s|
    ensures Valid(s[..n])
    decreases |s|
  {
    if n < |s| {
      PrefixValid(s[..|s| - 1], n);
      assert s[..|s| - 1][..n] == s[..n];
    } else {
      assert s[..n] == s;
    }
  }

  // The event at `i` was enabled by the schedule before it.
  lemma EnabledAt(s: seq<Event>, i: nat)
    requires Valid(s) && i < |s|
    ensures Valid(s[..i]) && Enabled(Run(s[..i]), s[i])
  {
    PrefixValid(s, i);
    PrefixValid(s, i + 1);
    assert s[..i + 1][..i] == s[..i];
  }

  lemma Once(s: seq<Event>, c: nat, e: Event)
    requires Valid(s) && c < |s| && s[c] == e
    requires e == Check || e == Take || e == Drop
    ensures forall i :: 0 <= i < |s| && s[i] == e ==> i == c
  {
    forall i | 0 <= i < |s| && s[i] == e ensures i == c {
      FirstAt(s, i, e);
      FirstAt(s, c, e);
    }
  }

  lemma FirstAt(s: seq<Event>, c: nat, e: Event)
    requires Valid(s) && c < |s| && s[c] == e
    requires e == Check || e == Take || e == Drop
    ensures forall i :: 0 <= i < c ==> s[i] != e
  {
    EnabledAt(s, c);
    RunExplained(s[..c]);
    assert forall i :: 0 <= i < c ==> s[..c][i] == s[i];
  }

  lemma DropFollowsTake(s: seq<Event>, d: nat)
    requires Valid(s) && d < |s| && s[d] == Drop
    ensures d > 0
  {
    EnabledAt(s, d);
    RunExplained(s[..d]);
  }
}
