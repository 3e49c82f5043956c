/** The exhaustive application of the eager rules after a change
    (`applyEagerRules(Result parent)`, lines 305-344 of
    RuleBasedUnificationAlgorithm.java): rounds of dynamic eager rules, each
    committed and recorded in the parent changeset, until a round brings
    neither new subsumers nor new records. */
module Propagation {
  import opened Wrappers
  import opened Assignments
  import opened Goals
  import opened Rules
  import opened Changesets
  import opened EagerRules
  import opened Commits
  import opened Undo

  /** The outcome of a search step: success, failure, or the fuel bound
      standing in for a loop the model cannot show to terminate. */
  datatype Verdict = Yes | No | OutOfFuel

  /** Lines 317-318 and 328-329: a pass's solved records and new subsumers
      are added to the round's changeset. */
  function Absorb(next: Changeset, res: Changeset): (r: Changeset)
    ensures r.trigger == next.trigger && r.application == next.application
    ensures r.newSolved == next.newSolved && r.newUnsolved == next.newUnsolved
    ensures r.solved == next.solved + res.solved
    ensures forall v :: Subsumers(r.newSubsumers, v) == Subsumers(next.newSubsumers, v) + Subsumers(res.newSubsumers, v)
  {
    next.(solved := next.solved + res.solved, newSubsumers := Merge(next.newSubsumers, res.newSubsumers))
  }

  /** What the dynamic passes of one round collected, and the working copy
      of the assignment they extended; `ok` is false when a rule failed. */
  datatype Gathered = Gathered(ok: bool, next: Changeset, tmp: Assignment)

  /** Lines 322-331: for each variable with new subsumers, in ascending
      order, a dynamic pass over the records whose body uses it. */
  function GatherKeys(o: Oracle, g: Goal, ns: Assignment, keys: seq<Atom>, next: Changeset, tmp: Assignment): (r: Gathered)
    ensures r.next.trigger == next.trigger && r.next.application == next.application
    decreases |keys|
  {
    if keys == [] then Gathered(true, next, tmp)
    else if Subsumers(ns, keys[0]) == {} then GatherKeys(o, g, ns, keys[1..], next, tmp)
    else
      var (res, t) := EagerPass(o, g, ByBodyVariable(g, keys[0]), DynamicEagerRules, Some(tmp));
      if !res.successful then Gathered(false, next, tmp)
      else GatherKeys(o, g, ns, keys[1..], Absorb(next, res), t.value)
  }

  /** Lines 313-331: the dynamic passes of one round, on a copy `a` of the
      assignment. */
  function Gather(o: Oracle, g: Goal, current: Changeset, a: Assignment): (r: Gathered)
    ensures r.ok ==> r.next.trigger.None? && r.next.application.None?
  {
    var (res, t) := EagerPass(o, g, current.newUnsolved, DynamicEagerRules, Some(a));
    if !res.successful then Gathered(false, Blank, a)
    else GatherKeys(o, g, current.newSubsumers, Ascending(current.newSubsumers.Keys), Absorb(Blank, res), t.value)
  }

  /** A round's changeset is a fresh one: no trigger, no new records, only
      records that were unsolved get solved, and the working copy of the
      assignment is the old one with exactly the reported subsumers added. */
  predicate FreshRound(g: Goal, base: Assignment, next: Changeset, tmp: Assignment) {
    && next.trigger.None? && next.application.None?
    && next.newSolved == [] && next.newUnsolved == []
    && next.solved !! g.solved
    && tmp == Merge(base, next.newSubsumers)
  }

  lemma {:induction false} GatherKeysFresh(o: Oracle, g: Goal, ns: Assignment, keys: seq<Atom>, next: Changeset, tmp: Assignment, base: Assignment)
    requires FreshRound(g, base, next, tmp)
    ensures var r := GatherKeys(o, g, ns, keys, next, tmp);
            r.ok ==> FreshRound(g, base, r.next, r.tmp)
    decreases |keys|
  {
    if keys != [] {
      if Subsumers(ns, keys[0]) == {} {
        GatherKeysFresh(o, g, ns, keys[1..], next, tmp, base);
      } else {
        var (res, t) := EagerPass(o, g, ByBodyVariable(g, keys[0]), DynamicEagerRules, Some(tmp));
        if res.successful {
          EagerPassMirrors(o, g, ByBodyVariable(g, keys[0]), DynamicEagerRules, tmp);
          MergeAssociative(base, next.newSubsumers, res.newSubsumers);
          GatherKeysFresh(o, g, ns, keys[1..], Absorb(next, res), t.value, base);
        }
      }
    }
  }

  /** Every successful gathering is a fresh round over the assignment it
      started from. */
  lemma GatherFresh(o: Oracle, g: Goal, current: Changeset, a: Assignment)
    requires Canonical(a)
    ensures var r := Gather(o, g, current, a);
            r.ok ==> FreshRound(g, a, r.next, r.tmp)
  {
    var (res, t) := EagerPass(o, g, current.newUnsolved, DynamicEagerRules, Some(a));
    if res.successful {
      EagerPassMirrors(o, g, current.newUnsolved, DynamicEagerRules, a);
      MergeAssociative(a, map[], res.newSubsumers);
      MergeNothing(a, map[]);
      GatherKeysFresh(o, g, current.newSubsumers, Ascending(current.newSubsumers.Keys), Absorb(Blank, res), t.value, a);
    }
  }

  /** The state after the rounds, the parent amended with every committed
      round, and the last round's changeset. */
  datatype Closed = Closed(verdict: Verdict, goal: Goal, asg: Assignment, parent: Changeset, last: Changeset)

  /** One round: the dynamic passes, then the commit of what they collected
      with the extended working copy as the new assignment (line 333);
      `None` when a pass failed. */
  function Round(o: Oracle, vars: set<Atom>, g: Goal, a: Assignment, current: Changeset): (r: Option<Committed>)
  {
    var gathered := Gather(o, g, current, a);
    if !gathered.ok then None
    else Some(Commit(o, vars, g, a, gathered.next, Some(gathered.tmp)))
  }

  /** A round as a value: the state and the previous round's changeset in,
      the committed round out. */
  type Step = (Goal, Assignment, Changeset) -> Option<Committed>

  function RoundOf(o: Oracle, vars: set<Atom>): (step: Step)
    ensures forall g, a, current :: step(g, a, current) == Round(o, vars, g, a, current)
  {
    (g, a, current) => Round(o, vars, g, a, current)
  }

  /** The loop condition of line 341 fails: the round brought nothing new. */
  predicate Quiet(res: Changeset) {
    NoSubsumers(res.newSubsumers) && res.newUnsolved == []
  }

  /** Lines 310-341: one round per iteration of the do-while loop, `current`
      being the changeset of the previous round. The parent is amended even
      when the round's commit fails (line 334), so a rollback also undoes it. */
  function Rounds(step: Step, g: Goal, a: Assignment, parent: Changeset, current: Changeset, fuel: nat): (r: Closed)
    ensures r.parent.trigger == parent.trigger && r.parent.application == parent.application
    ensures r.verdict == Yes ==> Quiet(r.last)
    decreases fuel
  {
    if fuel == 0 then Closed(OutOfFuel, g, a, parent, current)
    else match step(g, a, current)
      case None => Closed(No, g, a, parent, current)
      case Some(c) =>
        var parent' := Amend(parent, c.res);
        if !c.ok then Closed(No, c.goal, c.asg, parent', c.res)
        else if Quiet(c.res) then Closed(Yes, c.goal, c.asg, parent', c.res)
        else Rounds(step, c.goal, c.asg, parent', c.res, fuel - 1)
  }

  /** `applyEagerRules(parent)`. */
  function Closure(o: Oracle, vars: set<Atom>, g: Goal, a: Assignment, parent: Changeset, fuel: nat): (r: Closed)
    ensures r.parent.trigger == parent.trigger && r.parent.application == parent.application
  {
    Rounds(RoundOf(o, vars), g, a, parent, parent, fuel)
  }

  /** A state predicate that a round's outcome, if any, keeps once the
      parent is amended with the round's changeset. */
  predicate Keeps(inv: (Goal, Assignment, Changeset) -> bool, parent: Changeset, rd: Option<Committed>) {
    rd.Some? ==> inv(rd.value.goal, rd.value.asg, Amend(parent, rd.value.res))
  }

  /** Whatever the outcome, the rounds keep every state predicate that each
      round keeps: the parent amended with all committed rounds, the goal and
      the assignment they left. */
  lemma {:induction false} RoundsKeep(step: Step, inv: (Goal, Assignment, Changeset) -> bool,
                                      g: Goal, a: Assignment, parent: Changeset, current: Changeset, fuel: nat)
    requires inv(g, a, parent)
    requires forall g, a, parent, current :: inv(g, a, parent) ==> Keeps(inv, parent, step(g, a, current))
    ensures var r := Rounds(step, g, a, parent, current, fuel);
            inv(r.goal, r.asg, r.parent)
    decreases fuel
  {
    if fuel > 0 {
      assert Keeps(inv, parent, step(g, a, current));
      match step(g, a, current)
      case None =>
      case Some(c) =>
        if c.ok && !Quiet(c.res) {
          RoundsKeep(step, inv, c.goal, c.asg, Amend(parent, c.res), c.res, fuel - 1);
        }
    }
  }

  /** One round, committed and recorded in the parent, keeps the parent
      undoable. */
  lemma RoundUndoable(o: Oracle, vars: set<Atom>, g0: Goal, a0: Assignment, g: Goal, a: Assignment,
                      parent: Changeset, current: Changeset)
    requires Undoable(g0, a0, g, a, parent) && StaticRulesAddNoSubsumers(o)
    ensures var c := Round(o, vars, g, a, current);
            c.Some? ==> Undoable(g0, a0, c.value.goal, c.value.asg, Amend(parent, c.value.res))
  {
    var gathered := Gather(o, g, current, a);
    if gathered.ok {
      GatherFresh(o, g, current, a);
      CommitUndoable(o, vars, g, a, gathered.next, Some(gathered.tmp));
      var c := Commit(o, vars, g, a, gathered.next, Some(gathered.tmp));
      AmendUndoable(g0, a0, g, a, c.goal, c.asg, parent, c.res);
    }
  }

  /** After the closure, rolling back the amended parent undoes the parent's
      own changes and every round's. */
  lemma ClosureUndoable(o: Oracle, vars: set<Atom>, g0: Goal, a0: Assignment, g: Goal, a: Assignment, parent: Changeset, fuel: nat)
    requires Undoable(g0, a0, g, a, parent) && StaticRulesAddNoSubsumers(o)
    ensures var r := Closure(o, vars, g, a, parent, fuel);
            Undoable(g0, a0, r.goal, r.asg, r.parent)
  {
    var step := RoundOf(o, vars);
    var inv := (g', a', parent') => Undoable(g0, a0, g', a', parent');
    forall g', a', parent', current' | inv(g', a', parent')
      ensures Keeps(inv, parent', step(g', a', current'))
    {
      RoundUndoable(o, vars, g0, a0, g', a', parent', current');
    }
    RoundsKeep(step, inv, g, a, parent, parent, fuel);
  }

  /** One round keeps the goal well formed and the assignment canonical. */
  lemma RoundShape(o: Oracle, vars: set<Atom>, g: Goal, a: Assignment, current: Changeset)
    requires WellFormed(g) && Canonical(a)
    ensures var c := Round(o, vars, g, a, current);
            c.Some? ==> WellFormed(c.value.goal) && Canonical(c.value.asg)
  {
    GatherFresh(o, g, current, a);
  }

  /** The rounds keep the goal well formed and the assignment canonical. */
  lemma RoundsShape(o: Oracle, vars: set<Atom>, g: Goal, a: Assignment, parent: Changeset, current: Changeset, fuel: nat)
    requires WellFormed(g) && Canonical(a)
    ensures var r := Rounds(RoundOf(o, vars), g, a, parent, current, fuel);
            WellFormed(r.goal) && Canonical(r.asg)
  {
    var step := RoundOf(o, vars);
    var inv := (g': Goal, a': Assignment, parent': Changeset) => WellFormed(g') && Canonical(a');
    forall g', a', parent', current' | inv(g', a', parent')
      ensures Keeps(inv, parent', step(g', a', current'))
    {
      RoundShape(o, vars, g', a', current');
    }
    RoundsKeep(step, inv, g, a, parent, current, fuel);
  }
}
