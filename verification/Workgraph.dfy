// src/cli.rs `spark create`, src/app.rs `SetType` and `load_sparks`: the rule that only epics are
// parents and only epics are top-level, and the two places a parent is stored.
module Workgraph {
  import opened Prelude

  datatype Spark = Spark(id: string, sparkType: string, parent: Option<string>)

  // A `parent_child` row of `bonds`.
  datatype Bond = Bond(parent: string, child: string)

  datatype Graph = Graph(sparks: seq<Spark>, bonds: seq<Bond>)

  const TYPES: set<string> := {"bug", "feature", "task", "epic", "chore", "spike", "milestone"}

  function Find(sparks: seq<Spark>, id: string): (r: Option<nat>)
    ensures r.Some? ==> r.value < |sparks| && sparks[r.value].id == id
    ensures r.None? ==> forall i :: 0 <= i < |sparks| ==> sparks[i].id != id
  {
    if sparks == [] then None
    else if sparks[0].id == id then Some(0)
    else match Find(sparks[1..], id) case None => None case Some(i) => Some(i + 1)
  }

  predicate IsEpic(sparks: seq<Spark>, id: string) {
    Find(sparks, id).Some? && sparks[Find(sparks, id).value].sparkType == "epic"
  }

  // ---- The commands --------------------------------------------------------------------------------

  datatype Outcome =
    | Done
    | Unchanged
    | NeedsParent
    | ParentNotEpic
    | BondFailed            // the spark is there, its bond is not
    | InvalidType
    | HasChildren(count: nat)
    | WouldBeOrphan
    | IdTaken

  // `bondOk`: mirroring the parent into `bonds` succeeds.
  function Create(g: Graph, id: string, sparkType: string, parent: Option<string>, bondOk: bool): (Graph, Outcome) {
    if sparkType != "epic" && parent.None? then (g, NeedsParent)
    else if parent.Some? && !IsEpic(g.sparks, parent.value) then (g, ParentNotEpic)
    else if Find(g.sparks, id).Some? then (g, IdTaken)
    else
      var created := g.(sparks := g.sparks + [Spark(id, sparkType, parent)]);
      if parent.None? then (created, Done)
      else if !bondOk then (created, BondFailed)
      else (created.(bonds := g.bonds + [Bond(parent.value, id)]), Done)
  }

  function ChildCount(sparks: seq<Spark>, id: string): nat {
    if sparks == [] then 0
    else ChildCount(sparks[..|sparks| - 1], id) + if sparks[|sparks| - 1].parent == Some(id) then 1 else 0
  }

  // Writing the type, with no questions asked: `spark edit --type`.
  function WriteType(g: Graph, i: nat, sparkType: string): Graph
    requires i < |g.sparks|
  {
    g.(sparks := g.sparks[i := g.sparks[i].(sparkType := sparkType)])
  }

  // The detail view's type picker, its checks made on the current rows.
  function SetType(g: Graph, id: string, sparkType: string): (Graph, Outcome) {
    if sparkType !in TYPES then (g, InvalidType)
    else match Find(g.sparks, id)
      case None => (g, Unchanged)
      case Some(i) =>
        var current := g.sparks[i];
        if current.sparkType == sparkType then (g, Unchanged)
        else if current.sparkType == "epic" && ChildCount(g.sparks, id) > 0 then (g, HasChildren(ChildCount(g.sparks, id)))
        else if current.sparkType == "epic" && current.parent.None? then (g, WouldBeOrphan)
        else (WriteType(g, i, sparkType), Done)
  }

  // ---- The forest ----------------------------------------------------------------------------------

  // The parent of spark `i` is an epic that was created before it.
  ghost predicate ParentPlaced(sparks: seq<Spark>, i: nat)
    requires i < |sparks|
  {
    sparks[i].parent.Some? ==>
      exists j :: 0 <= j < i && sparks[j].id == sparks[i].parent.value && sparks[j].sparkType == "epic"
  }

  ghost predicate Forest(sparks: seq<Spark>) {
    && (forall i, j :: 0 <= i < j < |sparks| ==> sparks[i].id != sparks[j].id)
    && (forall i :: 0 <= i < |sparks| ==> ParentPlaced(sparks, i))
    && (forall i :: 0 <= i < |sparks| ==> sparks[i].sparkType == "epic" || sparks[i].parent.Some?)
  }

  // Bond `b` is mirrored by the child's parent column.
  ghost predicate BondSound(g: Graph, b: nat)
    requires b < |g.bonds|
  {
    exists i :: 0 <= i < |g.sparks| && g.sparks[i].id == g.bonds[b].child && g.sparks[i].parent == Some(g.bonds[b].parent)
  }

  ghost predicate BondsSound(g: Graph) {
    forall b :: 0 <= b < |g.bonds| ==> BondSound(g, b)
  }

  // Every parent column is mirrored by a bond.
  ghost predicate Mirrored(g: Graph) {
    forall i :: 0 <= i < |g.sparks| && g.sparks[i].parent.Some? ==>
      Bond(g.sparks[i].parent.value, g.sparks[i].id) in g.bonds
  }

  ghost predicate Inv(g: Graph) {
    Forest(g.sparks) && BondsSound(g)
  }

  lemma {:induction false} ChildCountPositive(sparks: seq<Spark>, id: string)
    ensures ChildCount(sparks, id) > 0 <==> exists i :: 0 <= i < |sparks| && sparks[i].parent == Some(id)
  {
    if sparks != [] {
      var init := sparks[..|sparks| - 1];
      ChildCountPositive(init, id);
      assert forall i :: 0 <= i < |init| ==> init[i] == sparks[i];
    }
  }

  lemma CreateKeepsForest(g: Graph, id: string, sparkType: string, parent: Option<string>, bondOk: bool)
    requires Inv(g)
    ensures Inv(Create(g, id, sparkType, parent, bondOk).0)
  {
    var g' := Create(g, id, sparkType, parent, bondOk).0;
    forall i | 0 <= i < |g'.sparks| ensures ParentPlaced(g'.sparks, i) {
      if i < |g.sparks| {
        assert ParentPlaced(g.sparks, i);
        if g.sparks[i].parent.Some? {
          var j :| 0 <= j < i && g.sparks[j].id == g.sparks[i].parent.value && g.sparks[j].sparkType == "epic";
          assert g'.sparks[j] == g.sparks[j];
        }
      } else if parent.Some? {
        assert g'.sparks[Find(g.sparks, parent.value).value].id == parent.value;
      }
    }
    forall b | 0 <= b < |g'.bonds| ensures BondSound(g', b) {
      if b < |g.bonds| {
        assert BondSound(g, b);
        var i :| 0 <= i < |g.sparks| && g.sparks[i].id == g.bonds[b].child && g.sparks[i].parent == Some(g.bonds[b].parent);
        assert g'.sparks[i] == g.sparks[i];
      } else {
        assert g'.sparks[|g.sparks|].id == id;
      }
    }
  }

  // Create keeps parent column and bond in step exactly when the bond it needs is written.
  lemma CreateKeepsMirror(g: Graph, id: string, sparkType: string, parent: Option<string>, bondOk: bool)
    requires Inv(g) && Mirrored(g)
    ensures var (g', outcome) := Create(g, id, sparkType, parent, bondOk);
      Mirrored(g') <==> outcome != BondFailed
  {
    var (g', outcome) := Create(g, id, sparkType, parent, bondOk);
    if outcome == BondFailed {
      var last := g'.sparks[|g.sparks|];
      assert last == Spark(id, sparkType, parent);
      forall b | 0 <= b < |g.bonds| ensures g.bonds[b].child != id {
        assert BondSound(g, b);
        var i :| 0 <= i < |g.sparks| && g.sparks[i].id == g.bonds[b].child && g.sparks[i].parent == Some(g.bonds[b].parent);
      }
      assert Bond(parent.value, id) !in g'.bonds;
    }
  }

  // Demoting a spark that nothing hangs on and that has a parent keeps the forest.
  lemma HarmlessWriteKeepsInv(g: Graph, i: nat, sparkType: string)
    requires Inv(g) && i < |g.sparks|
    requires sparkType == "epic" || g.sparks[i].sparkType != "epic"
             || (g.sparks[i].parent.Some? && ChildCount(g.sparks, g.sparks[i].id) == 0)
    ensures Inv(WriteType(g, i, sparkType))
    ensures Mirrored(g) ==> Mirrored(WriteType(g, i, sparkType))
  {
    var g' := WriteType(g, i, sparkType);
    ChildCountPositive(g.sparks, g.sparks[i].id);
    forall k | 0 <= k < |g'.sparks| ensures ParentPlaced(g'.sparks, k) {
      assert ParentPlaced(g.sparks, k);
      if g.sparks[k].parent.Some? {
        var j :| 0 <= j < k && g.sparks[j].id == g.sparks[k].parent.value && g.sparks[j].sparkType == "epic";
        assert g'.sparks[j].id == g.sparks[j].id;
      }
    }
    forall b | 0 <= b < |g'.bonds| ensures BondSound(g', b) {
      assert BondSound(g, b);
      var k :| 0 <= k < |g.sparks| && g.sparks[k].id == g.bonds[b].child && g.sparks[k].parent == Some(g.bonds[b].parent);
      assert g'.sparks[k].id == g.sparks[k].id;
    }
  }

  // A child of the demoted epic, or the demoted top-level epic itself, breaks the rule.
  lemma HarmfulWriteBreaks(g: Graph, i: nat, sparkType: string)
    requires Inv(g) && i < |g.sparks|
    requires sparkType != "epic" && g.sparks[i].sparkType == "epic"
    requires g.sparks[i].parent.None? || ChildCount(g.sparks, g.sparks[i].id) > 0
    ensures !Forest(WriteType(g, i, sparkType).sparks)
  {
    var sparks' := WriteType(g, i, sparkType).sparks;
    if g.sparks[i].parent.None? {
      assert sparks'[i].sparkType != "epic" && sparks'[i].parent.None?;
    } else {
      ChildCountPositive(g.sparks, g.sparks[i].id);
      var k :| 0 <= k < |g.sparks| && g.sparks[k].parent == Some(g.sparks[i].id);
      assert sparks'[k].parent == Some(g.sparks[i].id);
      forall j | 0 <= j < |sparks'| && sparks'[j].id == g.sparks[i].id ensures j == i {
        assert g.sparks[j].id == g.sparks[i].id;
      }
      assert !ParentPlaced(sparks', k);
    }
  }

  // The picker's guard is exact: it lets a change of type through if and only if the unguarded
  // write would keep the forest.
  lemma SetTypeGuardIsExact(g: Graph, i: nat, sparkType: string)
    requires Inv(g) && i < |g.sparks| && sparkType in TYPES && sparkType != g.sparks[i].sparkType
    ensures SetType(g, g.sparks[i].id, sparkType).1 == Done <==> Forest(WriteType(g, i, sparkType).sparks)
    ensures Inv(SetType(g, g.sparks[i].id, sparkType).0)
  {
    var found := Find(g.sparks, g.sparks[i].id).value;
    assert found == i;
    if sparkType == "epic" || g.sparks[i].sparkType != "epic"
       || (g.sparks[i].parent.Some? && ChildCount(g.sparks, g.sparks[i].id) == 0) {
      HarmlessWriteKeepsInv(g, i, sparkType);
    } else {
      HarmfulWriteBreaks(g, i, sparkType);
    }
  }

  // ---- Runs ----------------------------------------------------------------------------------------

  datatype Command =
    | CCreate(id: string, sparkType: string, parent: Option<string>, bondOk: bool)
    | CSetType(id: string, sparkType: string)

  function Step(g: Graph, c: Command): Graph {
    match c
    case CCreate(id, sparkType, parent, bondOk) => Create(g, id, sparkType, parent, bondOk).0
    case CSetType(id, sparkType) => SetType(g, id, sparkType).0
  }

  function Run(commands: seq<Command>): Graph {
    if commands == [] then Graph([], []) else Step(Run(commands[..|commands| - 1]), commands[|commands| - 1])
  }

  ghost predicate BondsWritten(commands: seq<Command>) {
    forall i :: 0 <= i < |commands| && commands[i].CCreate? ==> commands[i].bondOk
  }

  lemma {:induction false} RunKeepsForest(commands: seq<Command>)
    ensures Inv(Run(commands))
    ensures BondsWritten(commands) ==> Mirrored(Run(commands))
  {
    if commands != [] {
      var init := commands[..|commands| - 1];
      var g, c := Run(init), commands[|commands| - 1];
      RunKeepsForest(init);
      assert forall i :: 0 <= i < |init| ==> init[i] == commands[i];
      match c
      case CCreate(id, sparkType, parent, bondOk) =>
        CreateKeepsForest(g, id, sparkType, parent, bondOk);
        if BondsWritten(commands) { CreateKeepsMirror(g, id, sparkType, parent, bondOk); }
      case CSetType(id, sparkType) =>
        if SetType(g, id, sparkType).1 == Done {
          HarmlessWriteKeepsInv(g, Find(g.sparks, id).value, sparkType);
        }
    }
  }

  // A create under a fresh id needs a parent unless it is an epic, and the parent must be an epic that is
  // there; then the spark is appended, with its bond if that can be written. Refused, it changes nothing.
  lemma CreateExactly(g: Graph, id: string, sparkType: string, parent: Option<string>, bondOk: bool)
    requires Inv(g) && forall i :: 0 <= i < |g.sparks| ==> g.sparks[i].id != id
    ensures var (g', outcome) := Create(g, id, sparkType, parent, bondOk);
      && (outcome == NeedsParent <==> sparkType != "epic" && parent.None?)
      && (outcome == ParentNotEpic <==>
            parent.Some? && !exists i :: 0 <= i < |g.sparks| && g.sparks[i].id == parent.value && g.sparks[i].sparkType == "epic")
      && (outcome in {NeedsParent, ParentNotEpic} ==> g' == g)
      && (outcome !in {NeedsParent, ParentNotEpic} ==>
            && g'.sparks == g.sparks + [Spark(id, sparkType, parent)]
            && g'.bonds == (if parent.Some? && bondOk then g.bonds + [Bond(parent.value, id)] else g.bonds)
            && outcome == if parent.Some? && !bondOk then BondFailed else Done)
  {
    if parent.Some? {
      var found := Find(g.sparks, parent.value);
      forall i | 0 <= i < |g.sparks| && g.sparks[i].id == parent.value ensures found == Some(i) {
      }
    }
  }

  ghost function ChildrenOf(sparks: seq<Spark>, id: string): set<nat> {
    set i: nat | i < |sparks| && sparks[i].parent == Some(id)
  }

  lemma {:induction false} ChildCountExactly(sparks: seq<Spark>, id: string)
    ensures ChildCount(sparks, id) == |ChildrenOf(sparks, id)|
  {
    if sparks != [] {
      var n := |sparks| - 1;
      ChildCountExactly(sparks[..n], id);
      assert ChildrenOf(sparks, id) == ChildrenOf(sparks[..n], id) + if sparks[n].parent == Some(id) then {n} else {};
    }
  }

  // It refuses to demote an epic that has children, whose number it reports, or that has no parent.
  lemma RefusalExactly(g: Graph, i: nat, sparkType: string)
    requires Inv(g) && i < |g.sparks| && sparkType in TYPES && sparkType != g.sparks[i].sparkType
    ensures var outcome, children := SetType(g, g.sparks[i].id, sparkType).1, ChildrenOf(g.sparks, g.sparks[i].id);
      outcome == if g.sparks[i].sparkType == "epic" && children != {} then HasChildren(|children|)
                 else if g.sparks[i].sparkType == "epic" && g.sparks[i].parent.None? then WouldBeOrphan
                 else Done
  {
    ChildCountExactly(g.sparks, g.sparks[i].id);
    assert Find(g.sparks, g.sparks[i].id) == Some(i);
  }

  // The type picker changes that one type or nothing, and says which.
  lemma SetTypeExactly(g: Graph, id: string, sparkType: string)
    requires Inv(g)
    ensures var (g', outcome) := SetType(g, id, sparkType);
      && (outcome == InvalidType <==> sparkType !in TYPES)
      && (outcome != Done ==> g' == g)
      && (outcome == Done ==>
            && g'.bonds == g.bonds && |g'.sparks| == |g.sparks|
            && (exists i :: 0 <= i < |g.sparks| && g.sparks[i].id == id && g.sparks[i].sparkType != sparkType)
            && forall i :: 0 <= i < |g.sparks| ==>
                 g'.sparks[i] == if g.sparks[i].id == id then Spark(id, sparkType, g.sparks[i].parent) else g.sparks[i])
  {
  }

  // Following parents from any spark ends at a top-level epic.
  function Root(sparks: seq<Spark>, i: nat): (r: nat)
    requires i < |sparks| && Forest(sparks)
    ensures r <= i && sparks[r].parent.None? && sparks[r].sparkType == "epic"
  {
    match sparks[i].parent
    case None => i
    case Some(p) =>
      assert ParentPlaced(sparks, i);
      var j := Find(sparks, p);
      if j.Some? && j.value < i then Root(sparks, j.value) else assert false; i
  }

  // The check is only as good as the rows it reads: a child created between the check and the
  // write makes an accepted demotion break the forest.
  lemma CheckOnOldRowsIsNotEnough(g: Graph, i: nat, sparkType: string, childId: string)
    requires Inv(g) && i < |g.sparks| && g.sparks[i].sparkType == "epic" && sparkType != "epic"
    requires SetType(g, g.sparks[i].id, sparkType).1 == Done && Find(g.sparks, childId).None?
    ensures var g' := Create(g, childId, "task", Some(g.sparks[i].id), true).0;
      Inv(g') && i < |g'.sparks| && !Forest(WriteType(g', i, sparkType).sparks)
  {
    var (g', outcome) := Create(g, childId, "task", Some(g.sparks[i].id), true);
    assert Find(g.sparks, g.sparks[i].id).value == i;
    CreateKeepsForest(g, childId, "task", Some(g.sparks[i].id), true);
    assert g'.sparks[|g.sparks|].parent == Some(g.sparks[i].id);
    ChildCountPositive(g'.sparks, g.sparks[i].id);
    HarmfulWriteBreaks(g', i, sparkType);
  }

  // ---- Loading ---------------------------------------------------------------------------------------

  // The first bond of a child wins.
  function ParentByBond(bonds: seq<Bond>, child: string): Option<string> {
    if bonds == [] then None
    else if bonds[0].child == child then Some(bonds[0].parent)
    else ParentByBond(bonds[1..], child)
  }

  function Folded(s: Spark, bonds: seq<Bond>): Spark {
    if s.parent.None? then s.(parent := ParentByBond(bonds, s.id)) else s
  }

  function Fold(sparks: seq<Spark>, bonds: seq<Bond>): (r: seq<Spark>)
    ensures |r| == |sparks| && forall i :: 0 <= i < |r| ==> r[i] == Folded(sparks[i], bonds)
  {
    seq(|sparks|, i requires 0 <= i < |sparks| => Folded(sparks[i], bonds))
  }

  lemma {:induction false} ParentByBondFound(bonds: seq<Bond>, child: string)
    ensures var p := ParentByBond(bonds, child);
      if p.Some? then Bond(p.value, child) in bonds else forall b :: 0 <= b < |bonds| ==> bonds[b].child != child
  {
    if bonds != [] {
      ParentByBondFound(bonds[1..], child);
      assert forall b :: 0 < b < |bonds| ==> bonds[b] == bonds[1..][b - 1];
    }
  }

  // A load keeps every spark, its type and any parent its column names; a spark without one gets the
  // parent of the first bond that makes it a child, if there is such a bond.
  lemma FoldExactly(sparks: seq<Spark>, bonds: seq<Bond>, i: nat)
    requires i < |sparks|
    ensures |Fold(sparks, bonds)| == |sparks|
    ensures var s, s' := sparks[i], Fold(sparks, bonds)[i];
      && s'.id == s.id && s'.sparkType == s.sparkType
      && (s.parent.Some? ==> s'.parent == s.parent)
      && (s.parent.None? ==>
            && (s'.parent.None? <==> forall b :: 0 <= b < |bonds| ==> bonds[b].child != s.id)
            && (forall b :: 0 <= b < |bonds| && bonds[b].child == s.id && (forall c :: 0 <= c < b ==> bonds[c].child != s.id) ==>
                  s'.parent == Some(bonds[b].parent)))
  {
    FirstBondWins(bonds, sparks[i].id);
  }

  lemma {:induction false} FirstBondWins(bonds: seq<Bond>, child: string)
    ensures ParentByBond(bonds, child).None? <==> forall b :: 0 <= b < |bonds| ==> bonds[b].child != child
    ensures forall b :: 0 <= b < |bonds| && bonds[b].child == child && (forall c :: 0 <= c < b ==> bonds[c].child != child) ==>
              ParentByBond(bonds, child) == Some(bonds[b].parent)
  {
    if bonds != [] && bonds[0].child != child {
      FirstBondWins(bonds[1..], child);
      assert forall b :: 0 < b < |bonds| ==> bonds[b] == bonds[1..][b - 1];
      forall b | 0 <= b < |bonds| && bonds[b].child == child && (forall c :: 0 <= c < b ==> bonds[c].child != child)
        ensures ParentByBond(bonds, child) == Some(bonds[b].parent)
      {
        assert bonds[1..][b - 1].child == child;
        assert forall c :: 0 <= c < b - 1 ==> bonds[1..][c] == bonds[c + 1];
      }
    }
  }

  // Loading shows the same parents as the column after every run, and folding twice is folding once
  // whatever the tables hold.
  lemma FoldChangesNothing(commands: seq<Command>)
    ensures Fold(Run(commands).sparks, Run(commands).bonds) == Run(commands).sparks
  {
    var g := Run(commands);
    RunKeepsForest(commands);
    forall i | 0 <= i < |g.sparks| ensures Folded(g.sparks[i], g.bonds) == g.sparks[i] {
      ParentByBondFound(g.bonds, g.sparks[i].id);
      var p := ParentByBond(g.bonds, g.sparks[i].id);
      if p.Some? {
        var b :| 0 <= b < |g.bonds| && g.bonds[b] == Bond(p.value, g.sparks[i].id);
        assert BondSound(g, b);
        var k :| 0 <= k < |g.sparks| && g.sparks[k].id == g.bonds[b].child && g.sparks[k].parent == Some(g.bonds[b].parent);
        assert k == i;
      }
    }
  }

  lemma FoldIsIdempotent(sparks: seq<Spark>, bonds: seq<Bond>)
    ensures Fold(Fold(sparks, bonds), bonds) == Fold(sparks, bonds)
  {
  }

  // The loop of `load_sparks`: a map built with `or_insert`, then an update in place.
  method LoadSparks(rows: seq<Spark>, bonds: seq<Bond>) returns (sparks: seq<Spark>)
    ensures sparks == Fold(rows, bonds)
  {
    var childToParent: map<string, string> := map[];
    for k := 0 to |bonds|
      invariant forall c :: (c in childToParent <==> ParentByBond(bonds[..k], c).Some?)
      invariant forall c :: c in childToParent ==> ParentByBond(bonds[..k], c) == Some(childToParent[c])
    {
      forall c ensures ParentByBond(bonds[..k + 1], c) ==
        if ParentByBond(bonds[..k], c).Some? then ParentByBond(bonds[..k], c)
        else if bonds[k].child == c then Some(bonds[k].parent) else None
      {
        assert bonds[..k + 1] == bonds[..k] + [bonds[k]];
        ParentByBondSnoc(bonds[..k], bonds[k], c);
      }
      if bonds[k].child !in childToParent {
        childToParent := childToParent[bonds[k].child := bonds[k].parent];
      }
    }
    assert bonds[..|bonds|] == bonds;
    sparks := rows;
    for i := 0 to |sparks|
      invariant |sparks| == |rows|
      invariant forall j :: 0 <= j < i ==> sparks[j] == Folded(rows[j], bonds)
      invariant forall j :: i <= j < |rows| ==> sparks[j] == rows[j]
    {
      if sparks[i].parent.None? && sparks[i].id in childToParent {
        sparks := sparks[i := sparks[i].(parent := Some(childToParent[sparks[i].id]))];
      }
    }
  }

  lemma {:induction false} ParentByBondSnoc(bonds: seq<Bond>, b: Bond, child: string)
    ensures ParentByBond(bonds + [b], child) ==
      if ParentByBond(bonds, child).Some? then ParentByBond(bonds, child)
      else if b.child == child then Some(b.parent) else None
  {
    if bonds != [] {
      assert (bonds + [b])[1..] == bonds[1..] + [b];
      ParentByBondSnoc(bonds[1..], b, child);
    }
  }

  class Tables {
    var sparks: seq<Spark>
    var bonds: seq<Bond>

    function Model(): Graph
      reads this
    {
      Graph(sparks, bonds)
    }

    method CreateSpark(id: string, sparkType: string, parent: Option<string>, bondOk: bool) returns (outcome: Outcome)
      requires Inv(Model())
      modifies this
      ensures (Model(), outcome) == old(Create(Model(), id, sparkType, parent, bondOk)) && Inv(Model())
    {
      CreateKeepsForest(Model(), id, sparkType, parent, bondOk);
      if sparkType != "epic" && parent.None? {
        return NeedsParent;
      }
      if parent.Some? && !IsEpic(sparks, parent.value) {
        return ParentNotEpic;
      }
      if Find(sparks, id).Some? {
        return IdTaken;
      }
      sparks := sparks + [Spark(id, sparkType, parent)];
      outcome := Done;
      if parent.Some? {
        if bondOk {
          bonds := bonds + [Bond(parent.value, id)];
        } else {
          outcome := BondFailed;
        }
      }
    }

    method PickType(id: string, sparkType: string) returns (outcome: Outcome)
      requires Inv(Model())
      modifies this`sparks
      ensures (Model(), outcome) == old(SetType(Model(), id, sparkType)) && Inv(Model())
    {
      if sparkType !in TYPES {
        return InvalidType;
      }
      var found := Find(sparks, id);
      if found.None? || sparks[found.value].sparkType == sparkType {
        return Unchanged;
      }
      SetTypeGuardIsExact(Model(), found.value, sparkType);
      var current := sparks[found.value];
      if current.sparkType == "epic" && sparkType != "epic" {
        var children := ChildCount(sparks, id);
        if children > 0 {
          return HasChildren(children);
        }
        if current.parent.None? {
          return WouldBeOrphan;
        }
      }
      sparks := sparks[found.value := current.(sparkType := sparkType)];
      outcome := Done;
    }
  }
}
