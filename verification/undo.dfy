/** `rollBackResult` (lines 453-464 of RuleBasedUnificationAlgorithm.java) and
    the invariant under which it undoes a changeset exactly: the goal gets back
    its records and flags, the assignment its subsumers. The running maximum
    of the goal size is not part of the undone state. */
module Undo {
  import opened Wrappers
  import opened Assignments
  import opened Goals
  import opened Rules
  import opened Changesets
  import opened EagerRules
  import opened Commits

  /** `(g, a)` is `(g0, a0)` with exactly the changes recorded in `u` applied. */
  predicate Undoable(g0: Goal, a0: Assignment, g: Goal, a: Assignment, u: Changeset) {
    && WellFormed(g0) && WellFormed(g)
    && Canonical(a0)
    && a == Merge(a0, u.newSubsumers)
    && Disjoint(a0, u.newSubsumers)
    && Extends(g0, g, Created(u))
    && Created(u) !! Elems(g0.subs)
    && g0.solved == g.solved - Created(u) - Unsettled(u)
  }

  /** `rollBackResult(res)`: the subsumers of the changeset leave the
      assignment, its new records leave the goal, and the records it solved
      and its trigger become unsolved. A changeset without a trigger fails at
      the last step in the source (a null dereference), so one is required. */
  function Rollback(g: Goal, a: Assignment, u: Changeset): (r: (Goal, Assignment))
    requires u.trigger.Some?
    ensures Elems(r.0.subs) == Elems(g.subs) - Created(u)
    ensures r.0.solved == g.solved - Created(u) - Unsettled(u)
    ensures r.0.maxSize == g.maxSize
    ensures forall v :: Subsumers(r.1, v) == Subsumers(a, v) - Subsumers(u.newSubsumers, v)
    ensures WellFormed(g) ==> WellFormed(r.0)
  {
    var asg := Remove(a, u.newSubsumers);
    var g1 := RemoveAll(g, Elems(u.newSolved));
    var g2 := RemoveAll(g1, Elems(u.newUnsolved));
    var g3 := Unmark(g2, u.solved);
    (Unmark(g3, {u.trigger.value}), asg)
  }

  /** Rolling back an undoable changeset restores the records, in their
      order, the flags and the assignment. */
  lemma RollbackRestores(g0: Goal, a0: Assignment, g: Goal, a: Assignment, u: Changeset)
    requires Undoable(g0, a0, g, a, u) && u.trigger.Some?
    ensures Rollback(g, a, u).0 == g0.(maxSize := g.maxSize)
    ensures Rollback(g, a, u).1 == a0
  {
    var suffix := g.subs[|g0.subs|..];
    assert g.subs == g0.subs + suffix;
    WithoutAppend(g0.subs, suffix, Elems(u.newSolved));
    WithoutNothing(g0.subs, Elems(u.newSolved));
    var rest := Without(suffix, Elems(u.newSolved));
    WithoutAppend(g0.subs, rest, Elems(u.newUnsolved));
    WithoutNothing(g0.subs, Elems(u.newUnsolved));
    assert Without(rest, Elems(u.newUnsolved)) == [];
    RemoveUndoesMerge(a0, u.newSubsumers);
  }

  /** Undoability ignores the running maximum of the goal size. */
  lemma UndoableIgnoresMaxSize(g0: Goal, a0: Assignment, g: Goal, a: Assignment, u: Changeset, m: nat, m': nat)
    requires Undoable(g0, a0, g, a, u)
    ensures Undoable(g0.(maxSize := m), a0, g.(maxSize := m'), a, u)
  {
  }

  /** A commit whose static rules add no subsumers records exactly the
      changeset's subsumers that are new to the assignment, and extends the
      assignment by them. */
  lemma CommitSubsumers(o: Oracle, vars: set<Atom>, g: Goal, a: Assignment, res: Changeset, newAsg: Option<Assignment>)
    requires Canonical(a) && StaticRulesAddNoSubsumers(o)
    requires newAsg.Some? ==> newAsg.value == Merge(a, res.newSubsumers)
    ensures var r := Commit(o, vars, g, a, res, newAsg);
            && r.res.newSubsumers == Remove(res.newSubsumers, a)
            && r.asg == Merge(a, r.res.newSubsumers)
            && Disjoint(a, r.res.newSubsumers)
  {
    MergeStripped(a, res.newSubsumers);
    var stripped := Remove(res.newSubsumers, a);
    var p := Prepare(o, vars, g, a, res, newAsg);
    var eager := EagerPass(o, p.goal, p.res.newUnsolved, StaticEagerRules, None).0;
    if eager.successful {
      StaticPassAddsNoSubsumers(o, p.goal, p.res.newUnsolved, None);
      MergeNothing(stripped, eager.newSubsumers);
      assert Amend(p.res, eager).newSubsumers == stripped;
    }
  }

  /** Committing a freshly produced changeset (no new solved records, no
      solved records that were already solved, an unsolved trigger) leaves a
      state from which the commit can be undone; with `newAsg` the
      assignment the changes were computed on. */
  lemma CommitUndoable(o: Oracle, vars: set<Atom>, g: Goal, a: Assignment, res: Changeset, newAsg: Option<Assignment>)
    requires WellFormed(g) && Canonical(a) && StaticRulesAddNoSubsumers(o)
    requires res.newSolved == [] && res.solved !! g.solved
    requires res.trigger.Some? ==> res.trigger.value !in g.solved
    requires newAsg.Some? ==> newAsg.value == Merge(a, res.newSubsumers)
    ensures var r := Commit(o, vars, g, a, res, newAsg);
            Undoable(g, a, r.goal, r.asg, r.res)
  {
    CommitGrowth(o, vars, g, a, res, newAsg);
    CommitFlags(o, vars, g, a, res, newAsg);
    CommitSubsumers(o, vars, g, a, res, newAsg);
    CommittedUndoable(g, a, res, Commit(o, vars, g, a, res, newAsg));
  }

  /** The facts about a commit that make it undoable. */
  lemma CommittedUndoable(g: Goal, a: Assignment, res: Changeset, r: Committed)
    requires WellFormed(g) && WellFormed(r.goal) && Canonical(a)
    requires res.newSolved == [] && res.solved !! g.solved
    requires res.trigger.Some? ==> res.trigger.value !in g.solved
    requires r.res.trigger == res.trigger
    requires Extends(g, r.goal, Created(r.res)) && Created(r.res) - Elems(res.newSolved) !! Elems(g.subs)
    requires res.solved <= r.res.solved && (r.res.solved - res.solved) !! g.solved
    requires g.solved <= r.goal.solved
    requires forall x :: x in r.goal.solved ==> x in g.solved || x in Created(r.res) || x in Unsettled(r.res)
    requires r.asg == Merge(a, r.res.newSubsumers) && Disjoint(a, r.res.newSubsumers)
    ensures Undoable(g, a, r.goal, r.asg, r.res)
  {
    assert Elems(res.newSolved) == {};
  }

  /** Two undoable steps in a row form one undoable step, recorded by
      amending the first changeset with the second (which has no trigger). */
  lemma AmendUndoable(g0: Goal, a0: Assignment, g1: Goal, a1: Assignment, g2: Goal, a2: Assignment, u: Changeset, n: Changeset)
    requires Undoable(g0, a0, g1, a1, u) && Undoable(g1, a1, g2, a2, n)
    requires n.trigger.None?
    ensures Undoable(g0, a0, g2, a2, Amend(u, n))
  {
    var m := Amend(u, n);
    MergeAssociative(a0, u.newSubsumers, n.newSubsumers);
    assert Disjoint(a0, m.newSubsumers) by {
      forall v | v in a0 ensures Subsumers(a0, v) !! Subsumers(m.newSubsumers, v) {
        assert Subsumers(a0, v) <= Subsumers(a1, v);
        assert Subsumers(a0, v) !! Subsumers(u.newSubsumers, v);
        if Subsumers(a0, v) != {} {
          assert v in a1;
          assert Subsumers(a1, v) !! Subsumers(n.newSubsumers, v);
        }
      }
    }
    assert Created(m) == Created(u) + Created(n);
    ExtendsTransitive(g0, g1, g2, Created(u), Created(n));
    ExtendsKeeps(g0, g1, Created(u));
    assert Unsettled(m) == Unsettled(u) + Unsettled(n);
  }
}
