/** Why the search stack is enough to backtrack: every changeset on it undoes
    exactly to the state before its choice, a failed step leaves no trace,
    and the public operations keep these facts. */
module Backtracking {
  import opened Wrappers
  import opened Assignments
  import opened Goals
  import opened Rules
  import opened Changesets
  import opened EagerRules
  import opened Commits
  import opened Undo
  import opened Propagation
  import opened Search

  /** Rolling the stack back from the top, one changeset at a time, passes
      through states each of which the changeset above it undoes exactly. */
  predicate Stacked(stack: seq<Changeset>, g: Goal, a: Assignment)
    decreases |stack|
  {
    if stack == [] then WellFormed(g) && Canonical(a)
    else
      var top := stack[|stack| - 1];
      && Entry(top)
      && var (g', a') := Rollback(g, a, top);
         && Undoable(g', a', g, a, top)
         && Stacked(stack[..|stack| - 1], g', a')
  }

  /** The engine invariant. */
  predicate Valid(e: Engine) {
    && WellFormed(e.goal) && Canonical(e.asg) && e.treeSize >= 1
    && (e.stack.Some? ==> Stacked(e.stack.value, e.goal, e.asg) && e.treeSize >= 1 + |e.stack.value|)
  }

  lemma StackedShape(stack: seq<Changeset>, g: Goal, a: Assignment)
    requires Stacked(stack, g, a)
    ensures WellFormed(g) && Canonical(a) && Entries(stack)
    decreases |stack|
  {
    if stack != [] {
      var top := stack[|stack| - 1];
      var (g', a') := Rollback(g, a, top);
      StackedShape(stack[..|stack| - 1], g', a');
      assert stack == stack[..|stack| - 1] + [top];
    }
  }

  /** The running maximum of the goal size plays no part in the stack. */
  lemma {:induction false} StackedIgnoresMaxSize(stack: seq<Changeset>, g: Goal, a: Assignment, m: nat)
    requires Stacked(stack, g, a)
    ensures Stacked(stack, g.(maxSize := m), a)
    decreases |stack|
  {
    if stack != [] {
      var top := stack[|stack| - 1];
      var (g', a') := Rollback(g, a, top);
      assert Rollback(g.(maxSize := m), a, top) == (g'.(maxSize := m), a');
      UndoableIgnoresMaxSize(g', a', g, a, top, m, m);
      StackedIgnoresMaxSize(stack[..|stack| - 1], g', a', m);
    }
  }

  /** The record a rule was applied to before the commit: unsolved, with a
      fresh changeset from a nondeterministic rule. */
  predicate Fresh(g: Goal, res: Changeset) {
    && Entry(res) && res.trigger.value !in g.solved
    && res.newSolved == [] && res.solved == {}
  }

  /** Pushing a changeset that undoes exactly to the state below it keeps
      the stack invariant, whatever the running maximum of the goal size. */
  lemma PushKeeps(stack: seq<Changeset>, g0: Goal, a0: Assignment, g: Goal, a: Assignment, top: Changeset)
    requires Stacked(stack, g0, a0) && Undoable(g0, a0, g, a, top) && Entry(top)
    ensures Rollback(g, a, top) == (g0.(maxSize := g.maxSize), a0)
    ensures Stacked(stack + [top], g, a)
  {
    var m := g.maxSize;
    RollbackRestores(g0, a0, g, a, top);
    UndoableIgnoresMaxSize(g0, a0, g, a, top, m, m);
    StackedIgnoresMaxSize(stack, g0, a0, m);
    assert (stack + [top])[..|stack|] == stack;
  }

  /** A dead end restores the goal's records and flags and the assignment. */
  lemma DeadEndRestores(e: Engine, g: Goal, a: Assignment, u: Changeset)
    requires Undoable(e.goal, e.asg, g, a, u) && u.trigger.Some?
    ensures var r := DeadEnd(e, g, a, u);
            r.e.goal == e.goal.(maxSize := r.e.goal.maxSize) && r.e.asg == e.asg
  {
    RollbackRestores(e.goal, e.asg, g, a, u);
  }

  /** After a closure that left an undoable state, a failure restores the
      state and a success pushes a changeset that undoes exactly to it. */
  lemma SettleRestores(e: Engine, cl: Closed)
    requires e.stack.Some? && Stacked(e.stack.value, e.goal, e.asg)
    requires Undoable(e.goal, e.asg, cl.goal, cl.asg, cl.parent) && Entry(cl.parent)
    ensures var r := Settle(e, cl);
            && (r.verdict == No ==> r.e.goal == e.goal.(maxSize := r.e.goal.maxSize) && r.e.asg == e.asg)
            && (r.verdict == Yes ==>
                  var top := r.e.stack.value[|e.stack.value|];
                  && Rollback(r.e.goal, r.e.asg, top) == (e.goal.(maxSize := r.e.goal.maxSize), e.asg)
                  && Stacked(r.e.stack.value, r.e.goal, r.e.asg))
  {
    if cl.verdict == No {
      DeadEndRestores(e, cl.goal, cl.asg, cl.parent);
    } else if cl.verdict == Yes {
      PushKeeps(e.stack.value, e.goal, e.asg, cl.goal, cl.asg, cl.parent);
    }
  }

  /** What a nondeterministic step promises about the state `e` it started
      from: on `No` the goal's records and flags and the assignment are back
      as they were; on `Yes` the changeset pushed on top undoes exactly to
      that state, and the stack invariant holds. */
  predicate Restores(e: Engine, r: Stepped)
    requires e.stack.Some? && r.e.stack.Some?
  {
    && (r.verdict == No ==> r.e.goal == e.goal.(maxSize := r.e.goal.maxSize) && r.e.asg == e.asg)
    && (r.verdict == Yes ==>
          && |r.e.stack.value| == |e.stack.value| + 1
          && var top := r.e.stack.value[|e.stack.value|];
             && top.trigger.Some?
             && Rollback(r.e.goal, r.e.asg, top) == (e.goal.(maxSize := r.e.goal.maxSize), e.asg)
             && Stacked(r.e.stack.value, r.e.goal, r.e.asg))
  }

  /** An attempt that fails restores the goal's records and flags and the
      assignment; one that succeeds pushes a changeset that undoes exactly to
      the state before it. */
  lemma AttemptRestores(o: Oracle, fuel: nat, e: Engine, res: Changeset)
    requires e.stack.Some? && Stacked(e.stack.value, e.goal, e.asg) && StaticRulesAddNoSubsumers(o)
    requires Fresh(e.goal, res)
    ensures Restores(e, Attempt(o, fuel, e, res))
  {
    StackedShape(e.stack.value, e.goal, e.asg);
    var c := Commit(o, e.vars, e.goal, e.asg, res, None);
    CommitUndoable(o, e.vars, e.goal, e.asg, res, None);
    if !c.ok {
      DeadEndRestores(e, c.goal, c.asg, c.res);
    } else {
      ClosureUndoable(o, e.vars, e.goal, e.asg, c.goal, c.asg, c.res, fuel);
      SettleRestores(e, Closure(o, e.vars, c.goal, c.asg, c.res, fuel));
    }
  }

  /** Every attempt from a stacked state at a fresh application restores. */
  ghost predicate Restoring(attempt: Attempter) {
    forall e: Engine, res: Changeset {:trigger Restores(e, attempt(e, res))}
      | e.stack.Some? && Stacked(e.stack.value, e.goal, e.asg) && Fresh(e.goal, res) && attempt.requires(e, res) ::
      attempt(e, res).e.stack.Some? && Restores(e, attempt(e, res))
  }

  /** The attempts of the algorithm restore, when the static eager rules
      add no subsumers. */
  lemma AttemptWithRestores(o: Oracle, fuel: nat)
    requires StaticRulesAddNoSubsumers(o)
    ensures Restoring(AttemptWith(o, fuel))
  {
    var attempt := AttemptWith(o, fuel);
    forall e: Engine, res: Changeset | e.stack.Some? && Stacked(e.stack.value, e.goal, e.asg) && Fresh(e.goal, res) && attempt.requires(e, res)
      ensures attempt(e, res).e.stack.Some? && Restores(e, attempt(e, res))
    {
      AttemptRestores(o, fuel, e, res);
    }
  }

  /** A failed attempt followed by a step from the restored state is, as a
      whole, a step from the original state. */
  lemma RestoresAfterFailure(e: Engine, a: Stepped, r: Stepped)
    requires e.stack.Some? && a.e.stack == e.stack && r.e.stack.Some?
    requires Restores(e, a) && a.verdict == No && Restores(a.e, r)
    ensures Restores(e, r)
  {
  }

  /** `applyNextNondeterministicRule`: when no application survives, the step
      leaves no trace in the goal or the assignment; when one does, the
      pushed changeset undoes exactly to the state before the step. */
  lemma {:induction false} TryRulesRestores(o: Oracle, attempt: Attempter, e: Engine, sub: Sub, i: nat, previous: Option<Application>)
    requires i <= |NondeterministicRules| && e.stack.Some? && Attempts(attempt) && Restoring(attempt)
    requires Stacked(e.stack.value, e.goal, e.asg) && sub !in e.goal.solved
    ensures Restores(e, TryRules(o, attempt, e, sub, i, previous))
    decreases |NondeterministicRules| - i, Remaining(o, if i < |NondeterministicRules| then NondeterministicRules[i] else Extension, sub, previous)
  {
    if i < |NondeterministicRules| {
      match TryApplyRule(o, sub, NondeterministicRules[i], previous, Some(e.asg))
      case None =>
        TryRulesRestores(o, attempt, e, sub, i + 1, None);
      case Some(res) =>
        if !res.successful {
          TryRulesRestores(o, attempt, e, sub, i, res.application);
        } else {
          var a := attempt(e, res);
          assert Shaped(e, res, a);
          assert Restores(e, a);
          if a.verdict == No {
            StackedIgnoresMaxSize(e.stack.value, e.goal, e.asg, a.e.goal.maxSize);
            TryRulesRestores(o, attempt, a.e, sub, i, res.application);
            RestoresAfterFailure(e, a, TryRules(o, attempt, a.e, sub, i, res.application));
          }
        }
    }
  }

  /** What trying the alternatives `alts` in order from `d0` dead ends on a
      stack of `depth` entries leads to, when every failed attempt counts one
      dead end: a `No` after every successful alternative failed, a `Yes`
      pushing the first successful alternative whose attempt survived, after
      exactly the failures of the successful ones before it. */
  predicate FirstSurvivor(alts: seq<Changeset>, d0: nat, depth: nat, r: Stepped) {
    && (r.verdict == No ==> r.e.deadEnds == d0 + Successes(alts))
    && (r.verdict == Yes ==>
          && r.e.stack.Some? && |r.e.stack.value| > depth
          && exists k :: 0 <= k < |alts| && alts[k].successful
                         && r.e.stack.value[depth].application == alts[k].application
                         && r.e.deadEnds == d0 + Successes(alts[..k]))
  }

  /** One more alternative in front costs one dead end if it is successful. */
  lemma FirstSurvivorCons(res: Changeset, rest: seq<Changeset>, d0: nat, depth: nat, r: Stepped)
    requires FirstSurvivor(rest, d0 + (if res.successful then 1 else 0), depth, r)
    ensures FirstSurvivor([res] + rest, d0, depth, r)
  {
    var alts := [res] + rest;
    assert Successes(alts) == (if res.successful then 1 else 0) + Successes(rest) by {
      assert alts[1..] == rest;
    }
    if r.verdict == Yes {
      var k :| 0 <= k < |rest| && rest[k].successful
               && r.e.stack.value[depth].application == rest[k].application
               && r.e.deadEnds == d0 + (if res.successful then 1 else 0) + Successes(rest[..k]);
      assert alts[k + 1] == rest[k];
      assert alts[..k + 1][1..] == rest[..k];
    }
  }

  /** `applyNextNondeterministicRule` goes through the alternatives from
      `(i, previous)` in order, and every attempt that fails counts one dead
      end: a `No` means every successful alternative was attempted and
      failed, and a `Yes` pushes the first successful alternative whose
      attempt survived. */
  lemma {:induction false} TryRulesFirstSurvivor(o: Oracle, attempt: Attempter, e: Engine, sub: Sub, i: nat, previous: Option<Application>)
    requires i <= |NondeterministicRules| && e.stack.Some? && Attempts(attempt) && Restoring(attempt)
    requires Stacked(e.stack.value, e.goal, e.asg) && sub !in e.goal.solved
    ensures FirstSurvivor(Alternatives(o, sub, e.asg, i, previous), e.deadEnds, |e.stack.value|,
                          TryRules(o, attempt, e, sub, i, previous))
    decreases |NondeterministicRules| - i, Remaining(o, if i < |NondeterministicRules| then NondeterministicRules[i] else Extension, sub, previous), 1
  {
    if i < |NondeterministicRules| {
      match TryApplyRule(o, sub, NondeterministicRules[i], previous, Some(e.asg))
      case None => SkipFirstSurvivor(o, attempt, e, sub, i, previous);
      case Some(res) =>
        if !res.successful {
          UnsuccessfulFirstSurvivor(o, attempt, e, sub, i, previous, res);
        } else {
          AttemptFirstSurvivor(o, attempt, e, sub, i, previous, res);
        }
    } else {
      assert Alternatives(o, sub, e.asg, i, previous) == [];
    }
  }

  /** The case of `TryRulesFirstSurvivor` where the rule at `i` has no
      further application. */
  lemma {:induction false} SkipFirstSurvivor(o: Oracle, attempt: Attempter, e: Engine, sub: Sub, i: nat, previous: Option<Application>)
    requires i < |NondeterministicRules| && e.stack.Some? && Attempts(attempt) && Restoring(attempt)
    requires Stacked(e.stack.value, e.goal, e.asg) && sub !in e.goal.solved
    requires TryApplyRule(o, sub, NondeterministicRules[i], previous, Some(e.asg)).None?
    ensures FirstSurvivor(Alternatives(o, sub, e.asg, i, previous), e.deadEnds, |e.stack.value|,
                          TryRules(o, attempt, e, sub, i, previous))
    decreases |NondeterministicRules| - i, Remaining(o, NondeterministicRules[i], sub, previous), 0
  {
    assert Alternatives(o, sub, e.asg, i, previous) == Alternatives(o, sub, e.asg, i + 1, None);
    assert TryRules(o, attempt, e, sub, i, previous) == TryRules(o, attempt, e, sub, i + 1, None);
    TryRulesFirstSurvivor(o, attempt, e, sub, i + 1, None);
  }

  /** The case of `TryRulesFirstSurvivor` where the next alternative `res` is
      unsuccessful and is skipped. */
  lemma {:induction false} UnsuccessfulFirstSurvivor(o: Oracle, attempt: Attempter, e: Engine, sub: Sub, i: nat, previous: Option<Application>, res: Changeset)
    requires i < |NondeterministicRules| && e.stack.Some? && Attempts(attempt) && Restoring(attempt)
    requires Stacked(e.stack.value, e.goal, e.asg) && sub !in e.goal.solved
    requires TryApplyRule(o, sub, NondeterministicRules[i], previous, Some(e.asg)) == Some(res) && !res.successful
    ensures FirstSurvivor(Alternatives(o, sub, e.asg, i, previous), e.deadEnds, |e.stack.value|,
                          TryRules(o, attempt, e, sub, i, previous))
    decreases |NondeterministicRules| - i, Remaining(o, NondeterministicRules[i], sub, previous), 0
  {
    var rest := Alternatives(o, sub, e.asg, i, res.application);
    assert Alternatives(o, sub, e.asg, i, previous) == [res] + rest;
    assert TryRules(o, attempt, e, sub, i, previous) == TryRules(o, attempt, e, sub, i, res.application);
    TryRulesFirstSurvivor(o, attempt, e, sub, i, res.application);
    FirstSurvivorCons(res, rest, e.deadEnds, |e.stack.value|, TryRules(o, attempt, e, sub, i, res.application));
  }

  /** The case of `TryRulesFirstSurvivor` where the next alternative `res` is
      successful and is attempted. */
  lemma {:induction false} AttemptFirstSurvivor(o: Oracle, attempt: Attempter, e: Engine, sub: Sub, i: nat, previous: Option<Application>, res: Changeset)
    requires i < |NondeterministicRules| && e.stack.Some? && Attempts(attempt) && Restoring(attempt)
    requires Stacked(e.stack.value, e.goal, e.asg) && sub !in e.goal.solved
    requires TryApplyRule(o, sub, NondeterministicRules[i], previous, Some(e.asg)) == Some(res) && res.successful
    ensures FirstSurvivor(Alternatives(o, sub, e.asg, i, previous), e.deadEnds, |e.stack.value|,
                          TryRules(o, attempt, e, sub, i, previous))
    decreases |NondeterministicRules| - i, Remaining(o, NondeterministicRules[i], sub, previous), 0
  {
    var rest := Alternatives(o, sub, e.asg, i, res.application);
    assert Alternatives(o, sub, e.asg, i, previous) == [res] + rest;
    var a := attempt(e, res);
    AttemptOutcome(attempt, e, sub, res);
    TryRulesAttempts(o, attempt, e, sub, i, previous, res);
    if a.verdict == No {
      TryRulesFirstSurvivor(o, attempt, a.e, sub, i, res.application);
      AttemptedFirstSurvivor(res, rest, e.deadEnds, |e.stack.value|, a, TryRules(o, attempt, a.e, sub, i, res.application),
                             TryRules(o, attempt, e, sub, i, previous),
                             Alternatives(o, sub, a.e.asg, i, res.application), a.e.deadEnds, |a.e.stack.value|);
    } else {
      AttemptedFirstSurvivor(res, rest, e.deadEnds, |e.stack.value|, a, a, TryRules(o, attempt, e, sub, i, previous), rest, 0, 0);
    }
  }

  /** What the attempt at an application of the record `sub` leaves behind:
      after a failure a restored state with one more dead end, after a
      success the application on top of the stack. */
  lemma AttemptOutcome(attempt: Attempter, e: Engine, sub: Sub, res: Changeset)
    requires e.stack.Some? && Attempts(attempt) && Restoring(attempt)
    requires Stacked(e.stack.value, e.goal, e.asg) && sub !in e.goal.solved
    requires Entry(res) && res.trigger == Some(sub) && res.newSolved == [] && res.solved == {}
    ensures var a := attempt(e, res);
            && (a.verdict == No ==>
                  && a.e.stack == e.stack && a.e.asg == e.asg && a.e.deadEnds == e.deadEnds + 1
                  && Stacked(a.e.stack.value, a.e.goal, a.e.asg) && sub !in a.e.goal.solved)
            && (a.verdict == Yes ==>
                  && a.e.stack.Some? && |a.e.stack.value| > |e.stack.value|
                  && a.e.stack.value[|e.stack.value|].application == res.application
                  && a.e.deadEnds == e.deadEnds)
  {
    var a := attempt(e, res);
    assert Shaped(e, res, a);
    assert Restores(e, a);
    if a.verdict == No {
      StackedIgnoresMaxSize(e.stack.value, e.goal, e.asg, a.e.goal.maxSize);
    }
  }

  /** `TryRules` at a successful application: its attempt, resumed after it
      when the attempt fails. */
  lemma TryRulesAttempts(o: Oracle, attempt: Attempter, e: Engine, sub: Sub, i: nat, previous: Option<Application>, res: Changeset)
    requires i < |NondeterministicRules| && e.stack.Some? && Attempts(attempt)
    requires TryApplyRule(o, sub, NondeterministicRules[i], previous, Some(e.asg)) == Some(res) && res.successful
    ensures var a := attempt(e, res);
            && a.e.stack.Some?
            && TryRules(o, attempt, e, sub, i, previous)
                 == if a.verdict == No then TryRules(o, attempt, a.e, sub, i, res.application) else a
  {
    assert Shaped(e, res, attempt(e, res));
  }

  /** Putting the cases of an attempted alternative together. */
  lemma AttemptedFirstSurvivor(res: Changeset, rest: seq<Changeset>, d0: nat, depth: nat, a: Stepped, after: Stepped, r: Stepped,
                                rest1: seq<Changeset>, d1: nat, depth1: nat)
    requires res.successful && r == (if a.verdict == No then after else a)
    requires a.verdict == No ==> rest1 == rest && d1 == d0 + 1 && depth1 == depth && FirstSurvivor(rest1, d1, depth1, after)
    requires a.verdict == Yes ==>
               && a.e.stack.Some? && |a.e.stack.value| > depth
               && a.e.stack.value[depth].application == res.application && a.e.deadEnds == d0
    ensures FirstSurvivor([res] + rest, d0, depth, r)
  {
    if a.verdict == No {
      FirstSurvivorCons(res, rest, d0, depth, after);
    } else if a.verdict == Yes {
      assert ([res] + rest)[..0] == [];
      assert ([res] + rest)[0] == res;
    }
  }

  /** The stack invariant after a step, unless the fuel ran out. */
  predicate Kept(r: Stepped) {
    r.e.stack.Some? && (r.verdict != OutOfFuel ==> Stacked(r.e.stack.value, r.e.goal, r.e.asg))
  }

  /** `backtrack` keeps the stack invariant unless the fuel ran out. */
  lemma {:induction false} BacktrackKeeps(o: Oracle, attempt: Attempter, e: Engine)
    requires e.stack.Some? && Stacked(e.stack.value, e.goal, e.asg) && Attempts(attempt) && Restoring(attempt)
    ensures Entries(e.stack.value)
    ensures Kept(Backtrack(o, attempt, e))
    decreases |e.stack.value|
  {
    StackedShape(e.stack.value, e.goal, e.asg);
    var stack := e.stack.value;
    if stack != [] {
      var top := stack[|stack| - 1];
      var (g', a') := Rollback(e.goal, e.asg, top);
      var popped := e.(goal := g', asg := a', stack := Some(stack[..|stack| - 1]));
      var app := top.application.value;
      var i := IndexOf(NondeterministicRules, app.rule);
      TryRulesRestores(o, attempt, popped, top.trigger.value, i, Some(app));
      var s := TryRules(o, attempt, popped, top.trigger.value, i, Some(app));
      if s.verdict == No {
        StackedIgnoresMaxSize(stack[..|stack| - 1], g', a', s.e.goal.maxSize);
        BacktrackKeeps(o, attempt, s.e);
      }
    }
  }

  /** A turn of the loop keeps the stack invariant unless the fuel ran out. */
  lemma TurnKeeps(o: Oracle, attempt: Attempter, e: Engine, sub: Sub)
    requires e.stack.Some? && Stacked(e.stack.value, e.goal, e.asg) && Attempts(attempt) && Restoring(attempt)
    requires sub !in e.goal.solved
    ensures Entries(e.stack.value)
    ensures Kept(Turn(o, attempt, e, sub))
  {
    StackedShape(e.stack.value, e.goal, e.asg);
    TryRulesRestores(o, attempt, e, sub, 0, None);
    var s := TryRules(o, attempt, e, sub, 0, None);
    if s.verdict == No {
      var e' := s.e.(deadEnds := s.e.deadEnds + 1);
      StackedIgnoresMaxSize(e.stack.value, e.goal, e.asg, s.e.goal.maxSize);
      BacktrackKeeps(o, attempt, e');
    }
  }

  /** `turn` keeps the stack invariant unless the fuel ran out, on an
      unsolved record. */
  ghost predicate KeepsTurning(turn: Turner) {
    forall fuel: nat, e: Engine, sub: Sub {:trigger Kept(turn(fuel, e, sub))}
      | e.stack.Some? && Stacked(e.stack.value, e.goal, e.asg) && sub !in e.goal.solved && turn.requires(fuel, e, sub) ::
      Kept(turn(fuel, e, sub))
  }

  /** The turns of `solve` keep the stack invariant. */
  lemma TurnWithKeeps(o: Oracle)
    requires StaticRulesAddNoSubsumers(o)
    ensures KeepsTurning(TurnWith(o))
  {
    var turn := TurnWith(o);
    forall fuel: nat, e: Engine, sub: Sub
      | e.stack.Some? && Stacked(e.stack.value, e.goal, e.asg) && sub !in e.goal.solved && turn.requires(fuel, e, sub)
      ensures Kept(turn(fuel, e, sub))
    {
      StackedShape(e.stack.value, e.goal, e.asg);
      AttemptWithRestores(o, fuel);
      TurnKeeps(o, AttemptWith(o, fuel), e, sub);
    }
  }

  /** A loop of turns that keep the stack invariant keeps it. */
  lemma {:induction false} LoopKeeps(turn: Turner, fuel: nat, e: Engine)
    requires e.stack.Some? && Stacked(e.stack.value, e.goal, e.asg) && Turns(turn) && KeepsTurning(turn)
    ensures Entries(e.stack.value)
    ensures Kept(Loop(turn, fuel, e))
    decreases fuel
  {
    StackedShape(e.stack.value, e.goal, e.asg);
    if fuel > 0 {
      match FirstUnsolved(e.goal)
      case None =>
      case Some(k) =>
        var sub := e.goal.subs[k];
        assert turn.requires(fuel, e, sub);
        var t := turn(fuel, e, sub);
        assert TurnShaped(e, t);
        assert Kept(t);
        if t.verdict == Yes {
          LoopKeeps(turn, fuel - 1, t.e);
        }
    }
  }

  /** `solve` keeps the stack invariant unless the fuel ran out. */
  lemma SolveKeeps(o: Oracle, fuel: nat, e: Engine)
    requires e.stack.Some? && Stacked(e.stack.value, e.goal, e.asg) && StaticRulesAddNoSubsumers(o)
    ensures Entries(e.stack.value)
    ensures Kept(Solve(o, fuel, e))
  {
    TurnWithKeeps(o);
    LoopKeeps(TurnWith(o), fuel, e);
  }

  /** A new engine is valid. */
  lemma ConstructValid(subs: seq<Sub>, vars: set<Atom>)
    ensures var r := Construct(subs, false, vars);
            r.Ok? && Valid(r.value)
  {
  }

  /** The first search leaves a valid engine with an empty stack, whatever
      its outcome. */
  lemma StartValid(o: Oracle, fuel: nat, e: Engine)
    requires Valid(e)
    ensures Valid(Start(o, fuel, e).e)
  {
    var e0 := e.(stack := Some([]));
    var res := EagerPass(o, e0.goal, e0.goal.subs, StaticEagerRules, None).0;
    if res.successful {
      var g1 := MarkSolved(e0.goal, res.solved);
      var (res2, tmp) := EagerPass(o, g1, g1.subs, DynamicEagerRules, Some(map[]));
      EagerPassMirrors(o, g1, g1.subs, DynamicEagerRules, map[]);
      if res2.successful {
        var c := Commit(o, e0.vars, g1, e0.asg, res2, tmp);
        if c.ok {
          RoundsShape(o, e0.vars, c.goal, c.asg, c.res, c.res, fuel);
        }
      }
    }
  }

  /** `computeNextUnifier` keeps the engine valid unless the fuel ran out;
      on `Yes` every record of the goal is solved. */
  lemma ComputeNextValid(o: Oracle, fuel: nat, e: Engine)
    requires Valid(e) && StaticRulesAddNoSubsumers(o)
    ensures e.stack.Some? ==> Entries(e.stack.value)
    ensures var r := ComputeNext(o, fuel, e);
            r.verdict != OutOfFuel ==> Valid(r.e)
  {
    if e.stack.None? {
      StartValid(o, fuel, e);
      var s := Start(o, fuel, e);
      if s.verdict == Yes {
        SolveKeeps(o, fuel, s.e);
        var r := Solve(o, fuel, s.e);
        if r.verdict != OutOfFuel {
          StackedShape(r.e.stack.value, r.e.goal, r.e.asg);
        }
      }
    } else {
      StackedShape(e.stack.value, e.goal, e.asg);
      AttemptWithRestores(o, fuel);
      BacktrackKeeps(o, AttemptWith(o, fuel), e);
      var b := Backtrack(o, AttemptWith(o, fuel), e);
      if b.verdict != OutOfFuel {
        StackedShape(b.e.stack.value, b.e.goal, b.e.asg);
        if b.verdict == Yes {
          SolveKeeps(o, fuel, b.e);
          var r := Solve(o, fuel, b.e);
          if r.verdict != OutOfFuel {
            StackedShape(r.e.stack.value, r.e.goal, r.e.asg);
          }
        }
      }
    }
  }

  /** `cleanup` keeps the engine valid. */
  lemma CleanupValid(e: Engine)
    requires Valid(e)
    ensures Valid(Cleanup(e))
  {
  }
}
