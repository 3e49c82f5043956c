/** `commitResult` (lines 390-445 of RuleBasedUnificationAlgorithm.java):
    folds a changeset into the goal and the assignment, records the exact
    changes in the changeset, and runs the static eager rules over the new
    records. */
module Commits {
  import opened Wrappers
  import opened Assignments
  import opened Goals
  import opened Rules
  import opened Changesets
  import opened EagerRules

  /** `g'` is `g` with records appended, all of them in `C`. */
  predicate Extends(g: Goal, g': Goal, C: set<Sub>) {
    g.subs <= g'.subs && Elems(g'.subs[|g.subs|..]) <= C
  }

  lemma ExtendsTransitive(g0: Goal, g1: Goal, g2: Goal, C1: set<Sub>, C2: set<Sub>)
    requires Extends(g0, g1, C1) && Extends(g1, g2, C2)
    ensures Extends(g0, g2, C1 + C2)
  {
    assert g2.subs[|g0.subs|..] == g1.subs[|g0.subs|..] + g2.subs[|g1.subs|..];
    ElemsConcat(g1.subs[|g0.subs|..], g2.subs[|g1.subs|..]);
  }

  lemma ExtendsWeaken(g: Goal, g': Goal, C: set<Sub>, D: set<Sub>)
    requires Extends(g, g', C) && C <= D
    ensures Extends(g, g', D)
  {
  }

  lemma ExtendsByAddAll(g: Goal, cands: seq<Sub>)
    ensures Extends(g, AddAll(g, cands).0, Elems(AddAll(g, cands).1))
  {
    var (g', added) := AddAll(g, cands);
    assert g'.subs[|g.subs|..] == added;
  }

  lemma ExtendsReflexive(g: Goal, g': Goal, C: set<Sub>)
    requires g'.subs == g.subs
    ensures Extends(g, g', C)
  {
    assert g'.subs[|g.subs|..] == [];
  }

  /** Removing the appended records gives back the original sequence. */
  lemma WithoutUndoesExtends(g: Goal, g': Goal, C: set<Sub>)
    requires Extends(g, g', C) && C !! Elems(g.subs)
    ensures Without(g'.subs, C) == g.subs
  {
    var suffix := g'.subs[|g.subs|..];
    assert g'.subs == g.subs + suffix;
    WithoutAppend(g.subs, suffix, C);
    WithoutNothing(g.subs, C);
  }

  /** Lines 391-407: the trigger is solved; new records not yet in the goal
      are appended; those with a variable head are solved at once and move
      from the new unsolved records to the new solved ones. */
  datatype Admitted = Admitted(goal: Goal, newSolved: seq<Sub>, newUnsolved: seq<Sub>)

  function TriggerSet(res: Changeset): set<Sub> {
    if res.trigger.Some? then {res.trigger.value} else {}
  }

  /** The records of a changeset that are not yet in the goal. */
  function Incoming(g: Goal, res: Changeset): set<Sub> {
    Elems(res.newUnsolved) - Elems(g.subs)
  }

  function Admit(vars: set<Atom>, g: Goal, res: Changeset): (r: Admitted)
    ensures WellFormed(g) ==> WellFormed(r.goal)
  {
    var g1 := if res.trigger.Some? then MarkSolved(g, {res.trigger.value}) else g;
    var incoming := Without(res.newUnsolved, Elems(g1.subs));
    var (g2, added) := AddAll(g1, incoming);
    var headed := VariableHeaded(incoming, vars);
    var g3 := MarkSolved(g2, Elems(headed));
    var newSolved := Union(res.newSolved, headed);
    Admitted(g3, newSolved, Without(incoming, Elems(newSolved)))
  }

  lemma AdmitFacts(vars: set<Atom>, g: Goal, res: Changeset)
    ensures var r := Admit(vars, g, res);
            && Extends(g, r.goal, Incoming(g, res))
            && Elems(r.newSolved) == Elems(res.newSolved) + Headed(Incoming(g, res), vars)
            && Elems(r.newUnsolved) == Incoming(g, res) - Elems(r.newSolved)
            && r.goal.solved == g.solved + (TriggerSet(res) * Elems(g.subs)) + Headed(Incoming(g, res), vars)
  {
    var g1 := if res.trigger.Some? then MarkSolved(g, {res.trigger.value}) else g;
    assert g1.subs == g.subs;
    assert g1.solved == g.solved + (TriggerSet(res) * Elems(g.subs));
    var incoming := Without(res.newUnsolved, Elems(g1.subs));
    assert Elems(incoming) == Incoming(g, res);
    var (g2, added) := AddAll(g1, incoming);
    ExtendsByAddAll(g1, incoming);
    assert Elems(added) == Incoming(g, res);
    assert Elems(g2.subs) == Elems(g.subs) + Incoming(g, res) by {
      ElemsConcat(g1.subs, added);
    }
    var headed := VariableHeaded(incoming, vars);
    assert Elems(headed) == Headed(Incoming(g, res), vars);
    var g3 := MarkSolved(g2, Elems(headed));
    assert g3.solved == g1.solved + Elems(headed);
  }

  /** Lines 409-417, goal expansion (I): each new solved record's head variable
      passes its current subsumers to the records that use it. */
  function ExpandSolved(o: Oracle, g: Goal, a: Assignment, todo: seq<Sub>, nu: seq<Sub>): (r: (Goal, seq<Sub>))
    ensures Extends(g, r.0, Elems(r.1))
    ensures Elems(nu) <= Elems(r.1)
    ensures (Elems(r.1) - Elems(nu)) !! Elems(g.subs)
    ensures r.0.solved == g.solved
    ensures WellFormed(g) ==> WellFormed(r.0)
    decreases |todo|
  {
    if todo == [] then
      ExtendsReflexive(g, g, Elems(nu));
      (g, nu)
    else
      var s := todo[0];
      var (g1, added) := AddAll(g, o.expandSolved(g.subs, s, Subsumers(a, s.head)));
      ExtendsByAddAll(g, o.expandSolved(g.subs, s, Subsumers(a, s.head)));
      var nu1 := Union(nu, added);
      var (g2, nu2) := ExpandSolved(o, g1, a, todo[1..], nu1);
      ElemsConcat(g.subs, added);
      ExtendsTransitive(g, g1, g2, Elems(added), Elems(nu2));
      (g2, nu2)
  }

  /** Lines 391-434: everything `commitResult` does before the static rules. */
  datatype Prepared = Prepared(goal: Goal, asg: Assignment, res: Changeset)

  function Prepare(o: Oracle, vars: set<Atom>, g: Goal, a: Assignment, res: Changeset, newAsg: Option<Assignment>): (p: Prepared)
    ensures p.res.trigger == res.trigger && p.res.application == res.application
            && p.res.successful == res.successful && p.res.solved == res.solved
    ensures p.res.newSubsumers == Remove(res.newSubsumers, a)
    ensures p.asg == if newAsg.Some? then newAsg.value else Merge(a, p.res.newSubsumers)
    ensures WellFormed(g) ==> WellFormed(p.goal)
  {
    var adm := Admit(vars, g, res);
    var (g4, nu3) := ExpandSolved(o, adm.goal, a, adm.newSolved, adm.newUnsolved);
    var g5 := MarkSolved(g4, res.solved);
    var stripped := Remove(res.newSubsumers, a);
    var (g6, added) := AddAll(g5, o.expandSubsumers(g5.subs, stripped));
    Prepared(g6, if newAsg.Some? then newAsg.value else Merge(a, stripped),
             res.(newSolved := adm.newSolved, newUnsolved := Union(nu3, added), newSubsumers := stripped))
  }

  lemma ExtendsKeeps(g: Goal, g': Goal, C: set<Sub>)
    requires Extends(g, g', C)
    ensures Elems(g.subs) <= Elems(g'.subs) <= Elems(g.subs) + C
  {
    assert g'.subs == g.subs + g'.subs[|g.subs|..];
    ElemsConcat(g.subs, g'.subs[|g.subs|..]);
  }

  /** Two growth stages in a row, where the second adds only records in `C2`
      that were in neither goal, or that the first stage already brought in
      (`N`), still only add records absent from the first goal. */
  lemma GrowthChains(g0: Goal, g1: Goal, g2: Goal, C1: set<Sub>, N: set<Sub>, C2: set<Sub>)
    requires Extends(g0, g1, C1) && C1 !! Elems(g0.subs)
    requires Extends(g1, g2, C2) && N <= C1 && N <= C2 && (C2 - N) !! Elems(g1.subs)
    ensures Extends(g0, g2, C1 + C2) && C2 !! Elems(g0.subs)
  {
    ExtendsKeeps(g0, g1, C1);
    ExtendsTransitive(g0, g1, g2, C1, C2);
  }

  /** The goal grows only by records the prepared changeset lists as created,
      none of which was in the goal before. */
  lemma PrepareGrowth(o: Oracle, vars: set<Atom>, g: Goal, a: Assignment, res: Changeset, newAsg: Option<Assignment>)
    ensures var p := Prepare(o, vars, g, a, res, newAsg);
            && Extends(g, p.goal, Created(p.res))
            && Elems(p.res.newUnsolved) !! Elems(g.subs)
            && Elems(p.res.newSolved) == Elems(res.newSolved) + Headed(Incoming(g, res), vars)
  {
    var adm := Admit(vars, g, res);
    AdmitFacts(vars, g, res);
    var I := Incoming(g, res);
    var e := ExpandSolved(o, adm.goal, a, adm.newSolved, adm.newUnsolved);
    GrowthChains(g, adm.goal, e.0, I, Elems(adm.newUnsolved), Elems(e.1));
    var g5 := MarkSolved(e.0, res.solved);
    ExtendsReflexive(e.0, g5, {});
    ExtendsTransitive(g, e.0, g5, I + Elems(e.1), {});
    var stripped := Remove(res.newSubsumers, a);
    var grown := AddAll(g5, o.expandSubsumers(g5.subs, stripped));
    ExtendsByAddAll(g5, o.expandSubsumers(g5.subs, stripped));
    GrowthChains(g, g5, grown.0, I + Elems(e.1), {}, Elems(grown.1));
    var nu4 := Union(e.1, grown.1);
    assert Elems(nu4) == Elems(e.1) + Elems(grown.1);
    ExtendsWeaken(g, grown.0, I + Elems(e.1) + Elems(grown.1), Elems(adm.newSolved) + Elems(nu4));
  }

  lemma PrepareFlags(o: Oracle, vars: set<Atom>, g: Goal, a: Assignment, res: Changeset, newAsg: Option<Assignment>)
    ensures var p := Prepare(o, vars, g, a, res, newAsg);
            && g.solved <= p.goal.solved
            && (forall x :: x in p.goal.solved ==> x in g.solved || x in Created(p.res) || x in Unsettled(p.res))
            && (res.trigger.Some? && res.trigger.value in g.subs ==> res.trigger.value in p.goal.solved)
            && Headed(Incoming(g, res), vars) <= p.goal.solved
  {
    var adm := Admit(vars, g, res);
    AdmitFacts(vars, g, res);
    var (g4, nu3) := ExpandSolved(o, adm.goal, a, adm.newSolved, adm.newUnsolved);
    var g5 := MarkSolved(g4, res.solved);
    assert g5.solved <= adm.goal.solved + res.solved;
  }

  datatype Committed = Committed(ok: bool, goal: Goal, asg: Assignment, res: Changeset)

  /** `commitResult(res, newAssignment)`; `newAsg` is `None` when the changes
      are to be computed from the changeset's new subsumers. */
  function Commit(o: Oracle, vars: set<Atom>, g: Goal, a: Assignment, res: Changeset, newAsg: Option<Assignment>): (r: Committed)
    ensures r.res.trigger == res.trigger && r.res.application == res.application
            && r.res.successful == res.successful
    ensures r.asg == if newAsg.Some? then newAsg.value else Merge(a, Remove(res.newSubsumers, a))
    ensures !r.ok ==> r.res.newSubsumers == Remove(res.newSubsumers, a)
    ensures WellFormed(g) ==> WellFormed(r.goal)
  {
    var p := Prepare(o, vars, g, a, res, newAsg);
    var eager := EagerPass(o, p.goal, p.res.newUnsolved, StaticEagerRules, None).0;
    if !eager.successful then Committed(false, p.goal, p.asg, p.res)
    else Committed(true, MarkSolved(p.goal, eager.solved), p.asg, Amend(p.res, eager))
  }

  /** A commit grows the goal only by records the changeset now lists as
      created, none of them already in the goal. */
  lemma CommitGrowth(o: Oracle, vars: set<Atom>, g: Goal, a: Assignment, res: Changeset, newAsg: Option<Assignment>)
    ensures var r := Commit(o, vars, g, a, res, newAsg);
            && Extends(g, r.goal, Created(r.res))
            && Created(r.res) - Elems(res.newSolved) !! Elems(g.subs)
            && Elems(res.newSolved) + Headed(Incoming(g, res), vars) <= Elems(r.res.newSolved)
  {
    var p := Prepare(o, vars, g, a, res, newAsg);
    PrepareGrowth(o, vars, g, a, res, newAsg);
    var eager := EagerPass(o, p.goal, p.res.newUnsolved, StaticEagerRules, None).0;
    if eager.successful {
      var r := Commit(o, vars, g, a, res, newAsg);
      assert r.res == Amend(p.res, eager);
      assert Created(r.res) == Created(p.res);
    }
  }

  /** A commit sets the flag only on the trigger, on records the changeset
      solves and on created records; the records solved on top of the
      changeset's own were all unsolved before. */
  lemma CommitFlags(o: Oracle, vars: set<Atom>, g: Goal, a: Assignment, res: Changeset, newAsg: Option<Assignment>)
    ensures var r := Commit(o, vars, g, a, res, newAsg);
            && res.solved <= r.res.solved
            && (r.res.solved - res.solved) !! g.solved
            && g.solved <= r.goal.solved
            && (forall x :: x in r.goal.solved ==> x in g.solved || x in Created(r.res) || x in Unsettled(r.res))
            && (res.trigger.Some? && res.trigger.value in g.subs ==> res.trigger.value in r.goal.solved)
            && Headed(Incoming(g, res), vars) <= r.goal.solved
  {
    var p := Prepare(o, vars, g, a, res, newAsg);
    PrepareFlags(o, vars, g, a, res, newAsg);
    var eager := EagerPass(o, p.goal, p.res.newUnsolved, StaticEagerRules, None).0;
    if eager.successful {
      var r := Commit(o, vars, g, a, res, newAsg);
      assert r.res == Amend(p.res, eager);
      assert Created(r.res) == Created(p.res);
      assert eager.solved !! p.goal.solved;
      assert Unsettled(p.res) <= Unsettled(r.res);
    }
  }
}
