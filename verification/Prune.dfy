// src/cli.rs, src/worktree_cleanup.rs: classifying Hand worktrees, ordering the prune report, and
// removing exactly the removable ones.
module Prune {
  import opened Prelude

  datatype Facts = Facts(path: string, shortId: Option<string>, branch: Option<string>, clean: bool, unmerged: nat, live: bool)

  datatype Status = Removable | UnmergedCommits(n: nat) | DirtyTree | LiveSession | NotHandWorktree

  datatype Candidate = Candidate(facts: Facts, status: Status)

  const RESERVED: set<string> := {"crew", "epic", "release", "merge"}

  // ---- Classification ------------------------------------------------------------------------------

  // `split_once('/')`.
  function SplitAtSlash(s: string): (r: Option<(string, string)>)
    ensures r.Some? ==> '/' !in r.value.0 && s == r.value.0 + "/" + r.value.1
    ensures r.None? ==> '/' !in s
  {
    if s == "" then None
    else if s[0] == '/' then assert s == "" + "/" + s[1..]; Some(("", s[1..]))
    else match SplitAtSlash(s[1..])
      case None => None
      case Some((a, b)) => assert s == [s[0]] + a + "/" + b; Some(([s[0]] + a, b))
  }

  predicate ActorScoped(branch: string, shortId: string) {
    match SplitAtSlash(branch)
    case None => false
    case Some((actor, suffix)) => suffix == shortId && actor != "" && actor !in RESERVED
  }

  function Classify(f: Facts): Status {
    if f.shortId.None? || f.branch.None? || !ActorScoped(f.branch.value, f.shortId.value) then NotHandWorktree
    else if f.live then LiveSession
    else if !f.clean then DirtyTree
    else if f.unmerged > 0 then UnmergedCommits(f.unmerged)
    else Removable
  }

  lemma {:induction false} SplitIsFirst(a: string, b: string)
    requires '/' !in a
    ensures SplitAtSlash(a + "/" + b) == Some((a, b))
  {
    var s := a + "/" + b;
    if a == "" {
      assert s[1..] == b;
    } else {
      assert s[1..] == a[1..] + "/" + b && s[0] == a[0];
      SplitIsFirst(a[1..], b);
      assert [a[0]] + a[1..] == a;
    }
  }

  // The branch is `<actor>/<the worktree's own short id>`, the actor one segment and not reserved.
  ghost predicate OnOwnBranch(f: Facts, actor: string) {
    && f.shortId.Some?
    && f.branch == Some(actor + "/" + f.shortId.value)
    && '/' !in actor && actor != "" && actor !in RESERVED
  }

  // Only an idle, clean, merged worktree on its own branch is removable, and every such one is.
  lemma RemovableExactly(f: Facts)
    ensures Classify(f) == Removable <==>
            !f.live && f.clean && f.unmerged == 0 && exists actor :: OnOwnBranch(f, actor)
  {
    if f.shortId.Some? && f.branch.Some? && ActorScoped(f.branch.value, f.shortId.value) {
      assert OnOwnBranch(f, SplitAtSlash(f.branch.value).value.0);
    }
    forall actor | OnOwnBranch(f, actor) ensures ActorScoped(f.branch.value, f.shortId.value) {
      SplitIsFirst(actor, f.shortId.value);
    }
  }

  // A worktree off its own branch is out of scope; of the rest the most blocking reason is reported.
  lemma ClassifyExactly(f: Facts)
    ensures var own := exists actor :: OnOwnBranch(f, actor); var s := Classify(f);
      && (s == NotHandWorktree <==> !own)
      && (s == LiveSession <==> own && f.live)
      && (s == DirtyTree <==> own && !f.live && !f.clean)
      && (s == UnmergedCommits(f.unmerged) <==> own && !f.live && f.clean && f.unmerged > 0)
      && (s == Removable <==> own && !f.live && f.clean && f.unmerged == 0)
  {
    RemovableExactly(f.(live := false, clean := true, unmerged := 0));
    assert Classify(f.(live := false, clean := true, unmerged := 0)) == Removable <==> Classify(f) != NotHandWorktree;
    forall actor ensures OnOwnBranch(f, actor) <==> OnOwnBranch(f.(live := false, clean := true, unmerged := 0), actor) {
    }
  }

  // ---- The order of the report ---------------------------------------------------------------------

  datatype Key = Key(rank: nat, shortId: Option<string>)

  function Rank(s: Status): nat {
    match s
    case Removable => 0
    case UnmergedCommits(_) => 1
    case DirtyTree => 2
    case LiveSession => 3
    case NotHandWorktree => 4
  }

  function KeyOf(c: Candidate): Key {
    Key(Rank(c.status), c.facts.shortId)
  }

  predicate TextLe(a: string, b: string) {
    a == "" || (b != "" && (a[0] < b[0] || (a[0] == b[0] && TextLe(a[1..], b[1..]))))
  }

  // No id sorts before any id.
  predicate IdLe(a: Option<string>, b: Option<string>) {
    a.None? || (b.Some? && TextLe(a.value, b.value))
  }

  predicate Le(a: Key, b: Key) {
    a.rank < b.rank || (a.rank == b.rank && IdLe(a.shortId, b.shortId))
  }

  lemma {:induction false} TextOrder(a: string, b: string, c: string)
    ensures TextLe(a, b) || TextLe(b, a)
    ensures TextLe(a, b) && TextLe(b, a) ==> a == b
    ensures TextLe(a, b) && TextLe(b, c) ==> TextLe(a, c)
    decreases |a| + |b| + |c|
  {
    if a != "" && b != "" {
      TextOrder(a[1..], b[1..], if c == "" then "" else c[1..]);
      assert a == [a[0]] + a[1..] && b == [b[0]] + b[1..];
    }
  }

  lemma KeyOrder(a: Key, b: Key, c: Key)
    ensures Le(a, b) || Le(b, a)
    ensures Le(a, b) && Le(b, a) ==> a == b
    ensures Le(a, b) && Le(b, c) ==> Le(a, c)
  {
    TextOrder(if a.shortId.Some? then a.shortId.value else "",
              if b.shortId.Some? then b.shortId.value else "",
              if c.shortId.Some? then c.shortId.value else "");
  }

  ghost predicate Sorted(s: seq<Candidate>) {
    forall i, j :: 0 <= i < j < |s| ==> Le(KeyOf(s[i]), KeyOf(s[j]))
  }

  // The candidates with one key, in order.
  function With(s: seq<Candidate>, k: Key): seq<Candidate> {
    if s == [] then [] else (if KeyOf(s[0]) == k then [s[0]] else []) + With(s[1..], k)
  }

  // What `sort_by` promises: sorted, and candidates with equal keys keep their order.
  ghost predicate StableSortOf(s: seq<Candidate>, from: seq<Candidate>) {
    Sorted(s) && forall k :: With(s, k) == With(from, k)
  }

  // Stable insertion of one more candidate behind those it does not precede.
  function Insert(s: seq<Candidate>, c: Candidate): seq<Candidate> {
    if s == [] || Le(KeyOf(s[|s| - 1]), KeyOf(c)) then s + [c]
    else Insert(s[..|s| - 1], c) + [s[|s| - 1]]
  }

  function Sort(s: seq<Candidate>): seq<Candidate> {
    if s == [] then [] else Insert(Sort(s[..|s| - 1]), s[|s| - 1])
  }

  lemma {:induction false} WithAppend(a: seq<Candidate>, b: seq<Candidate>, k: Key)
    ensures With(a + b, k) == With(a, k) + With(b, k)
  {
    if a == [] {
      assert a + b == b;
    } else {
      assert (a + b)[1..] == a[1..] + b;
      WithAppend(a[1..], b, k);
    }
  }

  lemma {:induction false} InsertMembers(s: seq<Candidate>, c: Candidate)
    ensures multiset(Insert(s, c)) == multiset(s) + multiset{c}
  {
    if s != [] && !Le(KeyOf(s[|s| - 1]), KeyOf(c)) {
      InsertMembers(s[..|s| - 1], c);
      assert s == s[..|s| - 1] + [s[|s| - 1]];
    }
  }

  lemma {:induction false} InsertSorts(s: seq<Candidate>, c: Candidate)
    requires Sorted(s)
    ensures Sorted(Insert(s, c))
  {
    InsertMembers(s, c);
    if s == [] {
    } else if Le(KeyOf(s[|s| - 1]), KeyOf(c)) {
      forall i | 0 <= i < |s| ensures Le(KeyOf(s[i]), KeyOf(c)) {
        KeyOrder(KeyOf(s[i]), KeyOf(s[|s| - 1]), KeyOf(c));
      }
    } else {
      var init, last := s[..|s| - 1], s[|s| - 1];
      InsertSorts(init, c);
      InsertMembers(init, c);
      KeyOrder(KeyOf(c), KeyOf(last), KeyOf(c));
      forall i | 0 <= i < |Insert(init, c)| ensures Le(KeyOf(Insert(init, c)[i]), KeyOf(last)) {
        var x := Insert(init, c)[i];
        assert x in multiset(Insert(init, c));
        if x != c {
          assert x in multiset(init);
          var k :| 0 <= k < |init| && init[k] == x;
        }
      }
    }
  }

  lemma {:induction false} InsertIsStable(s: seq<Candidate>, c: Candidate, k: Key)
    requires Sorted(s)
    ensures With(Insert(s, c), k) == With(s + [c], k)
  {
    if s != [] && !Le(KeyOf(s[|s| - 1]), KeyOf(c)) {
      var init, last := s[..|s| - 1], s[|s| - 1];
      InsertIsStable(init, c, k);
      assert s == init + [last];
      WithAppend(Insert(init, c), [last], k);
      WithAppend(init, [c], k);
      WithAppend(init, [last], k);
      WithAppend(s, [c], k);
      KeyOrder(KeyOf(last), KeyOf(c), KeyOf(c));
      assert KeyOf(c) != KeyOf(last);
    }
  }

  lemma {:induction false} SortIsStableSort(s: seq<Candidate>)
    ensures StableSortOf(Sort(s), s) && multiset(Sort(s)) == multiset(s)
  {
    if s != [] {
      var init, c := s[..|s| - 1], s[|s| - 1];
      SortIsStableSort(init);
      InsertSorts(Sort(init), c);
      InsertMembers(Sort(init), c);
      assert s == init + [c];
      forall k ensures With(Sort(s), k) == With(s, k) {
        NextIsStable(init, c, k);
      }
    }
  }

  lemma NextIsStable(init: seq<Candidate>, c: Candidate, k: Key)
    requires Sorted(Sort(init)) && With(Sort(init), k) == With(init, k)
    ensures With(Insert(Sort(init), c), k) == With(init + [c], k)
  {
    InsertIsStable(Sort(init), c, k);
    WithAppend(Sort(init), [c], k);
    WithAppend(init, [c], k);
  }

  lemma {:induction false} WithFirst(s: seq<Candidate>, k: Key)
    ensures With(s, k) != [] ==> exists i :: 0 <= i < |s| && KeyOf(s[i]) == k && s[i] == With(s, k)[0]
  {
    if s != [] && KeyOf(s[0]) != k {
      WithFirst(s[1..], k);
      if With(s, k) != [] {
        var i :| 0 <= i < |s[1..]| && KeyOf(s[1..][i]) == k && s[1..][i] == With(s[1..], k)[0];
        assert s[i + 1] == s[1..][i];
      }
    }
  }

  lemma WithOwnKey(t: seq<Candidate>)
    ensures t == [] || With(t, KeyOf(t[0])) != []
  {
  }

  // The promise of a stable sort leaves one result only, so the report's order is determined.
  lemma {:induction false} StableSortIsUnique(s: seq<Candidate>, t: seq<Candidate>)
    requires Sorted(s) && Sorted(t) && forall k :: With(s, k) == With(t, k)
    ensures s == t
  {
    if s == [] {
      WithOwnKey(t);
    } else {
      var k := KeyOf(s[0]);
      assert With(t, k) == With(s, k) && With(s, k)[0] == s[0];
      WithFirst(t, k);
      var l := KeyOf(t[0]);
      assert With(s, l) == With(t, l) && With(t, l)[0] == t[0];
      WithFirst(s, l);
      KeyOrder(k, k, k);
      KeyOrder(k, l, k);
      assert k == l;
      forall m ensures With(s[1..], m) == With(t[1..], m) {
        assert With(s, m) == With(t, m);
        assert With(s[1..], m) == With(s, m)[if m == k then 1 else 0..];
        assert With(t[1..], m) == With(t, m)[if m == k then 1 else 0..];
      }
      StableSortIsUnique(s[1..], t[1..]);
      assert s == [s[0]] + s[1..] && t == [t[0]] + t[1..];
    }
  }

  // The report goes from removable over unmerged, dirty and live to out of scope, by short id within each.
  lemma ReportOrder(s: seq<Candidate>, i: nat, j: nat)
    requires Sorted(s) && i < j < |s|
    ensures var a, b := s[i].status, s[j].status;
      && (b.Removable? ==> a.Removable?)
      && (b.UnmergedCommits? ==> a.Removable? || a.UnmergedCommits?)
      && (b.DirtyTree? ==> !a.LiveSession? && !a.NotHandWorktree?)
      && (b.LiveSession? ==> !a.NotHandWorktree?)
      && ((a == b || (a.UnmergedCommits? && b.UnmergedCommits?)) && s[i].facts.shortId.Some? ==>
            s[j].facts.shortId.Some? && Alphabetical(s[i].facts.shortId.value, s[j].facts.shortId.value))
  {
    assert Le(KeyOf(s[i]), KeyOf(s[j]));
    if s[i].facts.shortId.Some? && s[j].facts.shortId.Some? {
      TextLeExactly(s[i].facts.shortId.value, s[j].facts.shortId.value);
    }
  }

  // A prefix, or smaller at the first difference.
  ghost predicate Alphabetical(a: string, b: string) {
    a <= b || exists i :: 0 <= i < |a| && i < |b| && a[..i] == b[..i] && a[i] < b[i]
  }

  lemma SameHead(a: string, b: string)
    requires a != "" && b != ""
    ensures forall i :: 0 < i <= |a| && i <= |b| && a[..i] == b[..i] ==> a[0] == b[0]
  {
    forall i | 0 < i <= |a| && i <= |b| && a[..i] == b[..i] ensures a[0] == b[0] {
      assert a[..i][0] == b[..i][0];
    }
  }

  lemma {:induction false} TextLeExactly(a: string, b: string)
    ensures TextLe(a, b) <==> Alphabetical(a, b)
  {
    if a != "" && b != "" && a[0] == b[0] {
      TextLeExactly(a[1..], b[1..]);
      assert a == [a[0]] + a[1..] && b == [b[0]] + b[1..];
      assert a <= b <==> a[1..] <= b[1..];
      if i :| 0 <= i < |a[1..]| && i < |b[1..]| && a[1..][..i] == b[1..][..i] && a[1..][i] < b[1..][i] {
        assert a[..i + 1] == [a[0]] + a[1..][..i] && b[..i + 1] == [b[0]] + b[1..][..i];
        assert a[i + 1] < b[i + 1];
      }
      if i :| 0 <= i < |a| && i < |b| && a[..i] == b[..i] && a[i] < b[i] {
        assert a[1..][..i - 1] == a[..i][1..] && b[1..][..i - 1] == b[..i][1..];
        assert a[1..][i - 1] < b[1..][i - 1];
      }
    } else if a != "" && b != "" {
      if a[0] < b[0] { assert a[..0] == b[..0]; }
      SameHead(a, b);
    }
  }

  // ---- The summary -----------------------------------------------------------------------------------

  datatype Summary = Summary(removable: nat, dirty: nat, unmerged: nat, live: nat, outOfScope: nat)

  function Record(s: Summary, status: Status): Summary {
    match status
    case Removable => s.(removable := s.removable + 1)
    case DirtyTree => s.(dirty := s.dirty + 1)
    case UnmergedCommits(_) => s.(unmerged := s.unmerged + 1)
    case LiveSession => s.(live := s.live + 1)
    case NotHandWorktree => s.(outOfScope := s.outOfScope + 1)
  }

  function Summarize(s: seq<Candidate>): Summary {
    if s == [] then Summary(0, 0, 0, 0, 0) else Record(Summarize(s[..|s| - 1]), s[|s| - 1].status)
  }

  function CountOf(s: seq<Candidate>, p: Status -> bool): nat {
    if s == [] then 0 else CountOf(s[..|s| - 1], p) + if p(s[|s| - 1].status) then 1 else 0
  }

  // Each counter counts the candidates of its status.
  lemma {:induction false} CountersExactly(s: seq<Candidate>)
    ensures var c := Summarize(s);
      && c.removable == CountOf(s, (x: Status) => x.Removable?)
      && c.dirty == CountOf(s, (x: Status) => x.DirtyTree?)
      && c.unmerged == CountOf(s, (x: Status) => x.UnmergedCommits?)
      && c.live == CountOf(s, (x: Status) => x.LiveSession?)
      && c.outOfScope == CountOf(s, (x: Status) => x.NotHandWorktree?)
  {
    if s != [] { CountersExactly(s[..|s| - 1]); }
  }

  lemma {:induction false} CountersAddUp(s: seq<Candidate>)
    ensures var c := Summarize(s); c.removable + c.dirty + c.unmerged + c.live + c.outOfScope == |s|
  {
    if s != [] { CountersAddUp(s[..|s| - 1]); }
  }

  // In the sorted report the removable candidates are exactly the first `summary.removable` rows.
  lemma {:induction false} RemovablePrefix(s: seq<Candidate>, i: nat)
    requires Sorted(s) && i < |s|
    ensures Summarize(s).removable <= |s|
    ensures s[i].status == Removable <==> i < Summarize(s).removable
    ensures s[|s| - 1].status == Removable ==> Summarize(s).removable == |s|
  {
    var init := s[..|s| - 1];
    if init != [] {
      RemovablePrefix(init, if i < |init| then i else |init| - 1);
      assert Le(KeyOf(s[|init| - 1]), KeyOf(s[|s| - 1]));
    }
  }

  lemma RemovableRow(s: seq<Candidate>, i: nat)
    requires Sorted(s) && i < |s|
    ensures s[i].status == Removable <==> i < Summarize(s).removable
  {
    RemovablePrefix(s, i);
  }

  lemma RemovableCount(s: seq<Candidate>)
    requires Sorted(s)
    ensures Summarize(s).removable <= |s|
  {
    if s != [] { RemovablePrefix(s, 0); }
  }

  // ---- The command -----------------------------------------------------------------------------------

  // Removing a worktree, then deleting its branch.
  datatype Attempt = Attempt(path: string, branch: string)

  function AttemptOn(c: Candidate): Attempt {
    Attempt(c.facts.path, if c.facts.branch.Some? then c.facts.branch.value
                          else "hand/" + if c.facts.shortId.Some? then c.facts.shortId.value else "?")
  }

  // The attempt removes that candidate's worktree and its own branch, and the candidate is removable.
  ghost predicate Targets(a: Attempt, c: Candidate) {
    c.status == Removable && a.path == c.facts.path && c.facts.branch == Some(a.branch)
  }

  ghost predicate Graded(s: seq<Candidate>) {
    forall i :: 0 <= i < |s| ==> s[i].status == Classify(s[i].facts)
  }

  ghost predicate AllTarget(attempts: seq<Attempt>, s: seq<Candidate>) {
    |attempts| <= |s| && forall k :: 0 <= k < |attempts| ==> Targets(attempts[k], s[k])
  }

  lemma TargetPlus(attempts: seq<Attempt>, s: seq<Candidate>)
    requires AllTarget(attempts, s) && |attempts| < |s| && Graded(s) && s[|attempts|].status == Removable
    ensures AllTarget(attempts + [AttemptOn(s[|attempts|])], s)
  {
    RemovableIsTargeted(s, |attempts|);
  }

  lemma RemovableIsTargeted(s: seq<Candidate>, i: nat)
    requires Graded(s) && i < |s| && s[i].status == Removable
    ensures Targets(AttemptOn(s[i]), s[i])
  {
    RemovableExactly(s[i].facts);
  }

  class PruneRun {
    var candidates: seq<Candidate>
    var summary: Summary

    // `removes(path)`: `git worktree remove` succeeds there. Nothing is attempted without `--yes`.
    method Prune(found: seq<Facts>, apply: bool, removes: string -> bool)
      returns (attempts: seq<Attempt>, succeeded: nat, failed: nat)
      modifies this
      ensures |candidates| == |found|
      ensures StableSortOf(candidates, Classified(found)) && multiset(candidates) == multiset(Classified(found))
      ensures summary == Summarize(candidates)
      ensures !apply ==> attempts == [] && succeeded == failed == 0
      ensures apply ==> |attempts| == summary.removable <= |candidates| && succeeded + failed == summary.removable
      ensures apply ==> forall i :: 0 <= i < |attempts| ==> Targets(attempts[i], candidates[i])
      ensures apply ==> succeeded == CountSucceeded(attempts, removes)
    {
      candidates := [];
      for i := 0 to |found|
        invariant candidates == Classified(found[..i])
      {
        candidates := candidates + [Candidate(found[i], Classify(found[i]))];
      }
      assert found[..|found|] == found;
      ghost var unsorted := candidates;
      candidates := Sort(candidates);
      SortIsStableSort(unsorted);
      assert |candidates| == |unsorted| by {
        assert |multiset(candidates)| == |multiset(unsorted)|;
      }
      forall i | 0 <= i < |candidates| ensures candidates[i].status == Classify(candidates[i].facts) {
        assert candidates[i] in multiset(candidates);
        assert candidates[i] in multiset(unsorted);
      }
      CountAll();
      attempts, succeeded, failed := [], 0, 0;
      if apply {
        attempts, succeeded, failed := RemoveAll(removes);
      }
    }

    method CountAll()
      modifies this`summary
      ensures summary == Summarize(candidates)
    {
      summary := Summary(0, 0, 0, 0, 0);
      for i := 0 to |candidates|
        invariant summary == Summarize(candidates[..i])
      {
        assert candidates[..i + 1][..i] == candidates[..i];
        summary := Record(summary, candidates[i].status);
      }
      assert candidates[..|candidates|] == candidates;
    }

    method RemoveAll(removes: string -> bool) returns (attempts: seq<Attempt>, succeeded: nat, failed: nat)
      requires Sorted(candidates)
      requires Graded(candidates)
      ensures |attempts| == Summarize(candidates).removable <= |candidates|
      ensures succeeded + failed == |attempts| && succeeded == CountSucceeded(attempts, removes)
      ensures forall i :: 0 <= i < |attempts| ==> Targets(attempts[i], candidates[i])
    {
      attempts, succeeded, failed := [], 0, 0;
      ghost var n := Summarize(candidates).removable;
      RemovableCount(candidates);
      for i := 0 to |candidates|
        invariant |attempts| == if i <= n then i else n
        invariant succeeded + failed == |attempts| && succeeded == CountSucceeded(attempts, removes)
        invariant AllTarget(attempts, candidates)
      {
        RemovableRow(candidates, i);
        if candidates[i].status != Removable {
          continue;
        }
        var attempt := AttemptOn(candidates[i]);
        TargetPlus(attempts, candidates);
        CountOneMore(attempts, attempt, removes);
        attempts := attempts + [attempt];
        if removes(attempt.path) {
          succeeded := succeeded + 1;
        } else {
          failed := failed + 1;
        }
      }
    }
  }

  lemma CountOneMore(attempts: seq<Attempt>, a: Attempt, removes: string -> bool)
    ensures CountSucceeded(attempts + [a], removes) == CountSucceeded(attempts, removes) + if removes(a.path) then 1 else 0
  {
    assert (attempts + [a])[..|attempts|] == attempts;
  }

  function Classified(found: seq<Facts>): (r: seq<Candidate>)
    ensures |r| == |found| && forall i :: 0 <= i < |r| ==> r[i] == Candidate(found[i], Classify(found[i]))
  {
    seq(|found|, i requires 0 <= i < |found| => Candidate(found[i], Classify(found[i])))
  }

  function CountSucceeded(attempts: seq<Attempt>, removes: string -> bool): nat {
    if attempts == [] then 0
    else CountSucceeded(attempts[..|attempts| - 1], removes) + if removes(attempts[|attempts| - 1].path) then 1 else 0
  }
}
