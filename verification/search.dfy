/** The search of `RuleBasedUnificationAlgorithm`: the engine state, the
    nondeterministic step, backtracking over the stack of changesets, the
    main loop, and the public operations around them. */
module Search {
  import opened Wrappers
  import opened Decimal
  import opened Assignments
  import opened Goals
  import opened Rules
  import opened Changesets
  import opened EagerRules
  import opened Commits
  import opened Undo
  import opened Propagation

  /** The fields of the algorithm object. `stack` is `None` while no search
      has started (`searchStack == null`); its last element is the top.
      `vars` are the variables of the atom manager. */
  datatype Engine = Engine(
    goal: Goal,
    asg: Assignment,
    stack: Option<seq<Changeset>>,
    treeSize: nat,
    deadEnds: nat,
    initialSize: nat,
    vars: set<Atom>)

  /** A step's outcome and the engine after it. */
  datatype Stepped = Stepped(verdict: Verdict, e: Engine)

  /** What a changeset on the stack carries: the record it was applied to
      and a nondeterministic application to resume from. */
  predicate Entry(p: Changeset) {
    p.trigger.Some? && p.application.Some? && p.application.value.rule in NondeterministicRules
  }

  predicate Entries(stack: seq<Changeset>) {
    forall k :: 0 <= k < |stack| ==> Entry(stack[k])
  }

  /** Cursors of `rule` on `sub` still open after `previous`: the measure
      of the inner loop of lines 263-290. */
  function Remaining(o: Oracle, rule: Rule, sub: Sub, previous: Option<Application>): nat {
    if previous.None? then o.choices(rule, sub) + 1
    else if previous.value.cursor < o.choices(rule, sub) then o.choices(rule, sub) - previous.value.cursor
    else 0
  }

  /** Lines 277-279 and 284-286: the changes recorded in `u` are rolled back
      and a dead end is counted. */
  function DeadEnd(e: Engine, g: Goal, a: Assignment, u: Changeset): (r: Stepped)
    requires u.trigger.Some?
    ensures r.verdict == No && r.e.stack == e.stack && r.e.treeSize == e.treeSize && r.e.deadEnds == e.deadEnds + 1
    ensures r.e.initialSize == e.initialSize && r.e.vars == e.vars
  {
    var (g', a') := Rollback(g, a, u);
    Stepped(No, e.(goal := g', asg := a', deadEnds := e.deadEnds + 1))
  }

  /** Lines 281-289: the outcome of the closure `cl` of a committed
      application; on success its amended changeset is pushed and the search
      tree grows. */
  function Settle(e: Engine, cl: Closed): (r: Stepped)
    requires e.stack.Some? && cl.parent.trigger.Some?
    ensures r.e.stack.Some? && r.e.initialSize == e.initialSize && r.e.vars == e.vars
    ensures r.verdict == No ==> r.e.stack == e.stack && r.e.treeSize == e.treeSize && r.e.deadEnds == e.deadEnds + 1
    ensures r.verdict == OutOfFuel ==> r.e.stack == e.stack && r.e.treeSize == e.treeSize && r.e.deadEnds == e.deadEnds
    ensures r.verdict == Yes ==>
              && r.e.stack == Some(e.stack.value + [cl.parent])
              && r.e.goal == cl.goal && r.e.asg == cl.asg
              && r.e.treeSize == e.treeSize + 1 && r.e.deadEnds == e.deadEnds
  {
    if cl.verdict == OutOfFuel then Stepped(OutOfFuel, e.(goal := cl.goal, asg := cl.asg))
    else if cl.verdict == No then DeadEnd(e, cl.goal, cl.asg, cl.parent)
    else Stepped(Yes, e.(goal := cl.goal, asg := cl.asg, stack := Some(e.stack.value + [cl.parent]), treeSize := e.treeSize + 1))
  }

  /** What an attempt at the rule application `res` promises about the
      engine it leaves: on `No` and `OutOfFuel` the stack and the tree size
      are unchanged, on `Yes` one changeset for the same application was
      pushed and the tree grew by one. */
  predicate Shaped(e: Engine, res: Changeset, r: Stepped)
    requires e.stack.Some?
  {
    && r.e.stack.Some? && r.e.initialSize == e.initialSize && r.e.vars == e.vars
    && (r.verdict == No ==> r.e.stack == e.stack && r.e.treeSize == e.treeSize && r.e.deadEnds == e.deadEnds + 1)
    && (r.verdict == OutOfFuel ==> r.e.stack == e.stack && r.e.treeSize == e.treeSize && r.e.deadEnds == e.deadEnds)
    && (r.verdict == Yes ==>
          && |r.e.stack.value| == |e.stack.value| + 1
          && r.e.stack == Some(e.stack.value + [r.e.stack.value[|e.stack.value|]])
          && r.e.stack.value[|e.stack.value|].trigger == res.trigger
          && r.e.stack.value[|e.stack.value|].application == res.application
          && r.e.treeSize == e.treeSize + 1 && r.e.deadEnds == e.deadEnds)
  }

  /** Lines 274-289, for a successful rule application `res`: it is
      committed and closed under the eager rules; if either fails, the changes
      are rolled back and a dead end is counted (`No`); otherwise the
      changeset is pushed and the search tree grows (`Yes`). `fuel` bounds
      the rounds of the closure. */
  function Attempt(o: Oracle, fuel: nat, e: Engine, res: Changeset): (r: Stepped)
    requires e.stack.Some? && res.trigger.Some?
    ensures Shaped(e, res, r)
  {
    var c := Commit(o, e.vars, e.goal, e.asg, res, None);
    if !c.ok then DeadEnd(e, c.goal, c.asg, c.res)
    else
      var r := Settle(e, Closure(o, e.vars, c.goal, c.asg, c.res, fuel));
      assert r.verdict == Yes ==> r.e.stack.value[|e.stack.value|] == Closure(o, e.vars, c.goal, c.asg, c.res, fuel).parent;
      r
  }

  /** The attempt at a successful rule application, as a value. */
  type Attempter = (Engine, Changeset) --> Stepped

  /** `attempt` is defined on every engine with a stack and every
      application with a trigger, and keeps the promises of an attempt. */
  ghost predicate Attempts(attempt: Attempter) {
    && (forall e: Engine, res: Changeset {:trigger attempt.requires(e, res)}
          | e.stack.Some? && res.trigger.Some? :: attempt.requires(e, res))
    && (forall e: Engine, res: Changeset {:trigger Shaped(e, res, attempt(e, res))}
          | e.stack.Some? && res.trigger.Some? && attempt.requires(e, res) :: Shaped(e, res, attempt(e, res)))
  }

  function AttemptWith(o: Oracle, fuel: nat): (attempt: Attempter)
    ensures Attempts(attempt)
    ensures forall e: Engine, res: Changeset {:trigger attempt(e, res)} | e.stack.Some? && res.trigger.Some? ::
              attempt(e, res) == Attempt(o, fuel, e, res)
  {
    (e: Engine, res: Changeset) requires e.stack.Some? && res.trigger.Some? => Attempt(o, fuel, e, res)
  }

  /** `applyNextNondeterministicRule(sub, previous)` from rule index `i`
      (lines 257-294): each application of each remaining rule is tried in
      order, an unsuccessful one skipped, a successful one attempted; the
      first attempt that survives ends the step. */
  function TryRules(o: Oracle, attempt: Attempter, e: Engine, sub: Sub, i: nat, previous: Option<Application>): (r: Stepped)
    requires i <= |NondeterministicRules| && e.stack.Some? && Attempts(attempt)
    ensures r.e.stack.Some? && r.e.initialSize == e.initialSize && r.e.vars == e.vars
    ensures r.e.deadEnds >= e.deadEnds
    ensures r.verdict != Yes ==> r.e.stack == e.stack && r.e.treeSize == e.treeSize
    ensures r.verdict == Yes ==>
              && |r.e.stack.value| == |e.stack.value| + 1
              && r.e.stack == Some(e.stack.value + [r.e.stack.value[|e.stack.value|]])
              && Entry(r.e.stack.value[|e.stack.value|])
              && r.e.stack.value[|e.stack.value|].trigger == Some(sub)
              && r.e.treeSize == e.treeSize + 1
    decreases |NondeterministicRules| - i, Remaining(o, if i < |NondeterministicRules| then NondeterministicRules[i] else Extension, sub, previous)
  {
    if i == |NondeterministicRules| then Stepped(No, e)
    else
      match TryApplyRule(o, sub, NondeterministicRules[i], previous, Some(e.asg))
      case None => TryRules(o, attempt, e, sub, i + 1, None)
      case Some(res) =>
        if !res.successful then TryRules(o, attempt, e, sub, i, res.application)
        else
          var a := attempt(e, res);
          assert Shaped(e, res, a);
          if a.verdict == No then TryRules(o, attempt, a.e, sub, i, res.application)
          else a
  }

  /** The step resumes where `previous` left off: the pushed choice is of the
      rule at `i` or a later one, and after `previous` when it is of the same
      rule. */
  lemma {:induction false} TryRulesResumes(o: Oracle, attempt: Attempter, e: Engine, sub: Sub, i: nat, previous: Option<Application>)
    requires i <= |NondeterministicRules| && e.stack.Some? && Attempts(attempt)
    ensures var r := TryRules(o, attempt, e, sub, i, previous);
            r.verdict == Yes ==>
              var app := r.e.stack.value[|e.stack.value|].application.value;
              && app.rule in NondeterministicRules[i..]
              && (previous.Some? && app.rule == NondeterministicRules[i] ==> app.cursor > previous.value.cursor)
    decreases |NondeterministicRules| - i, Remaining(o, if i < |NondeterministicRules| then NondeterministicRules[i] else Extension, sub, previous)
  {
    if i < |NondeterministicRules| {
      match TryApplyRule(o, sub, NondeterministicRules[i], previous, Some(e.asg))
      case None =>
        TryRulesResumes(o, attempt, e, sub, i + 1, None);
      case Some(res) =>
        if !res.successful {
          TryRulesResumes(o, attempt, e, sub, i, res.application);
        } else {
          var a := attempt(e, res);
          assert Shaped(e, res, a);
          if a.verdict == No {
            TryRulesResumes(o, attempt, a.e, sub, i, res.application);
          }
        }
    }
  }

  /** The alternatives `applyNextNondeterministicRule(sub, previous)` goes
      through from rule index `i` while the assignment stays `a`, in the
      order it tries them: the applications of the rule at `i` after
      `previous`, then every application of each later rule, each applied. */
  function Alternatives(o: Oracle, sub: Sub, a: Assignment, i: nat, previous: Option<Application>): (r: seq<Changeset>)
    requires i <= |NondeterministicRules|
    ensures forall k :: 0 <= k < |r| ==>
              && r[k].trigger == Some(sub) && r[k].application.Some?
              && r[k].application.value.rule in NondeterministicRules[i..]
              && r[k].solved == {} && r[k].newSolved == []
              && o.enabled(r[k].application.value.rule, sub, Some(a), r[k].application.value.cursor)
              && r[k].successful == o.apply(r[k].application.value.rule, sub, Some(a), r[k].application.value.cursor).successful
    ensures forall k :: 0 <= k < |r| && previous.Some? && r[k].application.value.rule == NondeterministicRules[i] ==>
              r[k].application.value.cursor > previous.value.cursor
    decreases |NondeterministicRules| - i, Remaining(o, if i < |NondeterministicRules| then NondeterministicRules[i] else Extension, sub, previous)
  {
    if i == |NondeterministicRules| then []
    else
      match TryApplyRule(o, sub, NondeterministicRules[i], previous, Some(a))
      case None => Alternatives(o, sub, a, i + 1, None)
      case Some(res) => [res] + Alternatives(o, sub, a, i, res.application)
  }

  /** No alternative is left out: every applicable cursor `c` of the rule
      at `j`, after `previous` when `j` is `i`, is among the alternatives,
      at position `k`. */
  lemma {:induction false} AlternativesComplete(o: Oracle, sub: Sub, a: Assignment, i: nat, previous: Option<Application>, j: nat, c: nat)
      returns (k: nat)
    requires i <= j < |NondeterministicRules| && c < o.choices(NondeterministicRules[j], sub)
    requires o.enabled(NondeterministicRules[j], sub, Some(a), c)
    requires j == i && previous.Some? ==> c > previous.value.cursor
    ensures k < |Alternatives(o, sub, a, i, previous)|
    ensures Alternatives(o, sub, a, i, previous)[k].application == Some(Application(NondeterministicRules[j], c))
    decreases |NondeterministicRules| - i, Remaining(o, NondeterministicRules[i], sub, previous), 1
  {
    if TryApplyRule(o, sub, NondeterministicRules[i], previous, Some(a)).None? {
      k := CompleteAfterRule(o, sub, a, i, previous, j, c);
    } else {
      k := CompleteAtCursor(o, sub, a, i, previous, j, c);
    }
  }

  /** The case of `AlternativesComplete` where the rule at `i` has no
      further application: `c` belongs to a later rule. */
  lemma {:induction false} CompleteAfterRule(o: Oracle, sub: Sub, a: Assignment, i: nat, previous: Option<Application>, j: nat, c: nat)
      returns (k: nat)
    requires i <= j < |NondeterministicRules| && c < o.choices(NondeterministicRules[j], sub)
    requires o.enabled(NondeterministicRules[j], sub, Some(a), c)
    requires j == i && previous.Some? ==> c > previous.value.cursor
    requires TryApplyRule(o, sub, NondeterministicRules[i], previous, Some(a)).None?
    ensures k < |Alternatives(o, sub, a, i, previous)|
    ensures Alternatives(o, sub, a, i, previous)[k].application == Some(Application(NondeterministicRules[j], c))
    decreases |NondeterministicRules| - i, Remaining(o, NondeterministicRules[i], sub, previous), 0
  {
    TryApplyRuleIsLeast(o, sub, NondeterministicRules[i], previous, Some(a));
    assert j != i;
    assert Alternatives(o, sub, a, i, previous) == Alternatives(o, sub, a, i + 1, None);
    k := AlternativesComplete(o, sub, a, i + 1, None, j, c);
  }

  /** The case of `AlternativesComplete` where the rule at `i` has a next
      application: it is `c`, or `c` comes after it. */
  lemma {:induction false} CompleteAtCursor(o: Oracle, sub: Sub, a: Assignment, i: nat, previous: Option<Application>, j: nat, c: nat)
      returns (k: nat)
    requires i <= j < |NondeterministicRules| && c < o.choices(NondeterministicRules[j], sub)
    requires o.enabled(NondeterministicRules[j], sub, Some(a), c)
    requires j == i && previous.Some? ==> c > previous.value.cursor
    requires TryApplyRule(o, sub, NondeterministicRules[i], previous, Some(a)).Some?
    ensures k < |Alternatives(o, sub, a, i, previous)|
    ensures Alternatives(o, sub, a, i, previous)[k].application == Some(Application(NondeterministicRules[j], c))
    decreases |NondeterministicRules| - i, Remaining(o, NondeterministicRules[i], sub, previous), 0
  {
    var rule := NondeterministicRules[i];
    var res := TryApplyRule(o, sub, rule, previous, Some(a)).value;
    var rest := Alternatives(o, sub, a, i, res.application);
    assert Alternatives(o, sub, a, i, previous) == [res] + rest;
    TryApplyRuleIsLeast(o, sub, rule, previous, Some(a));
    var next := res.application.value.cursor;
    if j == i && c == next {
      k := 0;
    } else {
      assert j == i ==> c > next;
      var k' := AlternativesComplete(o, sub, a, i, res.application, j, c);
      k := k' + 1;
    }
  }

  /** The number of successful alternatives in `alts`: the dead ends their
      attempts count when each of them fails. */
  function Successes(alts: seq<Changeset>): (n: nat)
    ensures n <= |alts|
  {
    if alts == [] then 0 else (if alts[0].successful then 1 else 0) + Successes(alts[1..])
  }

  /** `backtrack()` (lines 215-224): pops changesets, rolls each back and
      resumes its record after the application it records, until one
      resumption succeeds or the stack is empty. */
  function Backtrack(o: Oracle, attempt: Attempter, e: Engine): (r: Stepped)
    requires e.stack.Some? && Entries(e.stack.value) && Attempts(attempt)
    ensures r.e.stack.Some? && Entries(r.e.stack.value)
    ensures r.e.initialSize == e.initialSize && r.e.vars == e.vars
    ensures r.verdict == No ==> r.e.stack == Some([])
    ensures e.treeSize >= 1 + |e.stack.value| ==> r.e.treeSize >= 1 + |r.e.stack.value|
    decreases |e.stack.value|
  {
    var stack := e.stack.value;
    if stack == [] then Stepped(No, e)
    else
      var top := stack[|stack| - 1];
      var (g', a') := Rollback(e.goal, e.asg, top);
      var popped := e.(goal := g', asg := a', stack := Some(stack[..|stack| - 1]));
      var app := top.application.value;
      var s := TryRules(o, attempt, popped, top.trigger.value, IndexOf(NondeterministicRules, app.rule), Some(app));
      if s.verdict == No then Backtrack(o, attempt, s.e)
      else
        assert s.verdict == Yes ==> s.e.stack.value == stack[..|stack| - 1] + [s.e.stack.value[|stack| - 1]];
        s
  }

  /** `backtrack()` answers `No` exactly when the stack has emptied: a `Yes`
      leaves a resumed choice on top of what remains of the stack below the
      popped entries. */
  lemma {:induction false} BacktrackPops(o: Oracle, attempt: Attempter, e: Engine)
    requires e.stack.Some? && Entries(e.stack.value) && Attempts(attempt)
    ensures var r := Backtrack(o, attempt, e);
            r.verdict == Yes ==> |r.e.stack.value| >= 1 && r.e.stack.value[..|r.e.stack.value| - 1] <= e.stack.value
    decreases |e.stack.value|
  {
    var stack := e.stack.value;
    if stack != [] {
      var top := stack[|stack| - 1];
      var (g', a') := Rollback(e.goal, e.asg, top);
      var popped := e.(goal := g', asg := a', stack := Some(stack[..|stack| - 1]));
      var app := top.application.value;
      var s := TryRules(o, attempt, popped, top.trigger.value, IndexOf(NondeterministicRules, app.rule), Some(app));
      assert stack[..|stack| - 1] <= stack;
      if s.verdict == No {
        BacktrackPops(o, attempt, s.e);
      } else if s.verdict == Yes {
        assert s.e.stack.value[..|stack| - 1] == stack[..|stack| - 1];
      }
    }
  }

  /** One iteration of the loop of `solve()` on the unsolved record `sub`
      (lines 207-211): the next nondeterministic step, and on a dead end a
      counted backtrack. */
  function Turn(o: Oracle, attempt: Attempter, e: Engine, sub: Sub): (r: Stepped)
    requires e.stack.Some? && Entries(e.stack.value) && Attempts(attempt)
    ensures r.e.stack.Some? && Entries(r.e.stack.value)
    ensures r.e.initialSize == e.initialSize && r.e.vars == e.vars
    ensures r.verdict == No ==> r.e.stack == Some([])
    ensures e.treeSize >= 1 + |e.stack.value| ==> r.e.treeSize >= 1 + |r.e.stack.value|
  {
    var s := TryRules(o, attempt, e, sub, 0, None);
    if s.verdict == Yes then
      assert s.e.stack.value == e.stack.value + [s.e.stack.value[|e.stack.value|]];
      s
    else if s.verdict == OutOfFuel then s
    else Backtrack(o, attempt, s.e.(deadEnds := s.e.deadEnds + 1))
  }

  /** The outcome of one turn of the loop of `solve()`, as the loop relies on it. */
  predicate TurnShaped(e: Engine, r: Stepped)
    requires e.stack.Some?
  {
    && r.e.stack.Some? && Entries(r.e.stack.value)
    && r.e.initialSize == e.initialSize && r.e.vars == e.vars
    && (r.verdict == No ==> r.e.stack == Some([]))
    && (e.treeSize >= 1 + |e.stack.value| ==> r.e.treeSize >= 1 + |r.e.stack.value|)
  }

  /** A turn of the loop, given the fuel left, the engine and the record. */
  type Turner = (nat, Engine, Sub) --> Stepped

  /** `turn` is defined on every engine with a stack of entries, and its
      outcome has the shape of a turn. */
  ghost predicate Turns(turn: Turner) {
    && (forall fuel: nat, e: Engine, sub: Sub {:trigger turn.requires(fuel, e, sub)}
          | e.stack.Some? && Entries(e.stack.value) :: turn.requires(fuel, e, sub))
    && (forall fuel: nat, e: Engine, sub: Sub {:trigger TurnShaped(e, turn(fuel, e, sub))}
          | e.stack.Some? && Entries(e.stack.value) && turn.requires(fuel, e, sub) ::
          TurnShaped(e, turn(fuel, e, sub)))
  }

  /** The turn of `solve()`: `Turn` with the attempt of the given fuel. */
  function TurnWith(o: Oracle): (turn: Turner)
    ensures Turns(turn)
    ensures forall fuel: nat, e: Engine, sub: Sub {:trigger turn(fuel, e, sub)}
              | e.stack.Some? && Entries(e.stack.value) ::
              turn(fuel, e, sub) == Turn(o, AttemptWith(o, fuel), e, sub)
  {
    (fuel: nat, e: Engine, sub: Sub) requires e.stack.Some? && Entries(e.stack.value) =>
      Turn(o, AttemptWith(o, fuel), e, sub)
  }

  /** The loop of `solve()` (lines 205-212): while an unsolved record
      exists, turn on the first one. `fuel` bounds the iterations. */
  function Loop(turn: Turner, fuel: nat, e: Engine): (r: Stepped)
    requires e.stack.Some? && Entries(e.stack.value) && Turns(turn)
    ensures r.e.stack.Some? && Entries(r.e.stack.value)
    ensures r.e.initialSize == e.initialSize && r.e.vars == e.vars
    ensures r.verdict == Yes ==> forall j :: 0 <= j < |r.e.goal.subs| ==> r.e.goal.subs[j] in r.e.goal.solved
    ensures r.verdict == No ==> r.e.stack == Some([])
    ensures e.treeSize >= 1 + |e.stack.value| ==> r.e.treeSize >= 1 + |r.e.stack.value|
    decreases fuel
  {
    if fuel == 0 then Stepped(OutOfFuel, e)
    else match FirstUnsolved(e.goal)
      case None => Stepped(Yes, e)
      case Some(k) =>
        var t := turn(fuel, e, e.goal.subs[k]);
        assert TurnShaped(e, t);
        if t.verdict == Yes then Loop(turn, fuel - 1, t.e) else t
  }

  /** `solve()` (lines 197-213): the loop with the turns of the rules. A
      `Yes` leaves every record solved; a `No` leaves the stack empty. */
  function Solve(o: Oracle, fuel: nat, e: Engine): (r: Stepped)
    requires e.stack.Some? && Entries(e.stack.value)
    ensures r.e.stack.Some? && Entries(r.e.stack.value)
    ensures r.e.initialSize == e.initialSize && r.e.vars == e.vars
    ensures r.verdict == Yes ==> forall j :: 0 <= j < |r.e.goal.subs| ==> r.e.goal.subs[j] in r.e.goal.solved
    ensures r.verdict == No ==> r.e.stack == Some([])
    ensures e.treeSize >= 1 + |e.stack.value| ==> r.e.treeSize >= 1 + |r.e.stack.value|
  {
    Loop(TurnWith(o), fuel, e)
  }

  /** The first search (lines 152-171): the static eager rules over the goal,
      their records marked solved, the dynamic eager rules with a fresh empty
      assignment, the commit of their result with that assignment, and the
      closure, whose outcome the source ignores. */
  function Start(o: Oracle, fuel: nat, e: Engine): (r: Stepped)
    ensures r.e.stack == Some([]) && r.e.initialSize == e.initialSize && r.e.vars == e.vars
    ensures r.e.treeSize == e.treeSize
  {
    var e0 := e.(stack := Some([]));
    var res := EagerPass(o, e0.goal, e0.goal.subs, StaticEagerRules, None).0;
    if !res.successful then Stepped(No, e0)
    else
      var g1 := MarkSolved(e0.goal, res.solved);
      var (res2, tmp) := EagerPass(o, g1, g1.subs, DynamicEagerRules, Some(map[]));
      if !res2.successful then Stepped(No, e0.(goal := g1))
      else
        var c := Commit(o, e0.vars, g1, e0.asg, res2, tmp);
        if !c.ok then Stepped(No, e0.(goal := c.goal, asg := c.asg))
        else
          var cl := Closure(o, e0.vars, c.goal, c.asg, c.res, fuel);
          if cl.verdict == OutOfFuel then Stepped(OutOfFuel, e0.(goal := cl.goal, asg := cl.asg))
          else Stepped(Yes, e0.(goal := cl.goal, asg := cl.asg))
  }

  /** The first search fails exactly when the static pass, the dynamic pass
      or the commit fails. After those, the closure's `No` is ignored (line
      171): the search goes on from the state the closure left. */
  lemma StartIgnoresClosure(o: Oracle, fuel: nat, e: Engine)
    ensures var g0 := e.goal;
            var res := EagerPass(o, g0, g0.subs, StaticEagerRules, None).0;
            var g1 := MarkSolved(g0, res.solved);
            var (res2, tmp) := EagerPass(o, g1, g1.subs, DynamicEagerRules, Some(map[]));
            var c := Commit(o, e.vars, g1, e.asg, res2, tmp);
            var r := Start(o, fuel, e);
            && (r.verdict == No <==> !res.successful || !res2.successful || !c.ok)
            && (res.successful && res2.successful && c.ok ==>
                  var cl := Closure(o, e.vars, c.goal, c.asg, c.res, fuel);
                  && r.e.goal == cl.goal && r.e.asg == cl.asg
                  && (r.verdict == Yes <==> cl.verdict != OutOfFuel))
  {
  }

  /** `computeNextUnifier()` (lines 151-180): `Yes` when the assignment is a
      unifier of the goal, `No` when there are no more. */
  function ComputeNext(o: Oracle, fuel: nat, e: Engine): (r: Stepped)
    requires e.stack.Some? ==> Entries(e.stack.value)
    ensures r.e.stack.Some? && Entries(r.e.stack.value)
    ensures r.e.initialSize == e.initialSize && r.e.vars == e.vars
    ensures r.verdict == Yes ==> forall j :: 0 <= j < |r.e.goal.subs| ==> r.e.goal.subs[j] in r.e.goal.solved
    ensures e.stack == Some([]) ==> r == Stepped(No, e)
  {
    if e.stack.None? then
      var s := Start(o, fuel, e);
      if s.verdict != Yes then s else Solve(o, fuel, s.e)
    else
      var b := Backtrack(o, AttemptWith(o, fuel), e);
      if b.verdict != Yes then b else Solve(o, fuel, b.e)
  }

  const NegativePartMessage: string := "The rule-based algorithm cannot deal with dissubsubmptions or disequations!"

  /** The constructor (lines 79-99) on the normalized goal `subs` of an input
      whose negative part is `hasNegativePart`: a goal with a negative part is
      refused; otherwise every record with a variable head starts solved, the
      assignment is empty and no search has started. */
  function Construct(subs: seq<Sub>, hasNegativePart: bool, vars: set<Atom>): (r: Result<Engine, string>)
    ensures r.Err? <==> hasNegativePart
    ensures r.Err? ==> r.error == NegativePartMessage
    ensures r.Ok? ==>
              && Elems(r.value.goal.subs) == Elems(subs)
              && Distinct(r.value.goal.subs)
              && (forall x :: x in r.value.goal.solved <==> x in subs && x.head in vars)
              && r.value.asg == map[] && r.value.stack.None?
              && r.value.treeSize == 1 && r.value.deadEnds == 0
              && r.value.initialSize == |r.value.goal.subs| && r.value.vars == vars
  {
    if hasNegativePart then Err(NegativePartMessage)
    else
      var g := AddAll(Goal([], {}, 0), subs).0;
      assert Elems(g.subs) == Elems(subs) by {
        assert g.subs == AddAll(Goal([], {}, 0), subs).1;
      }
      Ok(Engine(MarkSolved(g, Headed(Elems(g.subs), vars)), map[], None, 1, 0, |g.subs|, vars))
  }

  /** `cleanup()` (lines 102-105): the next search starts afresh. */
  function Cleanup(e: Engine): (r: Engine)
    ensures r.stack.None? && r.(stack := e.stack) == e
  {
    e.(stack := None)
  }

  /** `getInfo()` (lines 115-124): six labelled statistics. */
  function Info(e: Engine): (r: seq<(string, string)>)
    ensures |r| == 6
    ensures r[0] == ("Name", "Rule-based algorithm")
    ensures forall j, k :: 0 <= j < k < |r| ==> r[j].0 != r[k].0
  {
    [("Name", "Rule-based algorithm"),
     ("Initial number of subsumptions", IntToString(e.initialSize)),
     ("Max. number of subsumptions (so far)", IntToString(e.goal.maxSize)),
     ("Size of the search tree (so far)", IntToString(e.treeSize)),
     ("Number of encountered dead ends (so far)", IntToString(e.deadEnds)),
     ("Number of variables", IntToString(|e.vars|))]
  }

  /** The statistics reported by `getInfo` read back as the engine's counters. */
  lemma InfoReadsBack(e: Engine)
    ensures var r := Info(e);
            && ParseInt(r[1].1) == Some(e.initialSize as int)
            && ParseInt(r[2].1) == Some(e.goal.maxSize as int)
            && ParseInt(r[3].1) == Some(e.treeSize as int)
            && ParseInt(r[4].1) == Some(e.deadEnds as int)
            && ParseInt(r[5].1) == Some(|e.vars| as int)
  {
    IntRoundTrip(e.initialSize);
    IntRoundTrip(e.goal.maxSize);
    IntRoundTrip(e.treeSize);
    IntRoundTrip(e.deadEnds);
    IntRoundTrip(|e.vars|);
  }

  /** `Definition(varId, body, false)`. */
  datatype Definition = Definition(definiendum: Atom, body: set<Atom>, primitive: bool)

  /** `getUnifier()` (lines 182-195): one non-primitive definition per
      variable, whose body is the variable's current subsumers. */
  function Unifier(e: Engine): (r: set<Definition>)
    ensures forall d :: d in r <==> d.definiendum in e.vars && d.body == Subsumers(e.asg, d.definiendum) && !d.primitive
  {
    set v | v in e.vars :: Definition(v, Subsumers(e.asg, v), false)
  }

  /** The unifier loses nothing: over the same variables, two canonical
      assignments that only mention variables give the same unifier exactly
      when they are equal. */
  lemma UnifierDeterminesAssignment(e1: Engine, e2: Engine)
    requires e1.vars == e2.vars && Canonical(e1.asg) && Canonical(e2.asg)
    requires e1.asg.Keys <= e1.vars && e2.asg.Keys <= e2.vars
    ensures Unifier(e1) == Unifier(e2) <==> e1.asg == e2.asg
  {
    if Unifier(e1) == Unifier(e2) {
      forall v ensures Subsumers(e1.asg, v) == Subsumers(e2.asg, v) {
        if v in e1.vars {
          assert Definition(v, Subsumers(e1.asg, v), false) in Unifier(e2);
        }
      }
      Extensionality(e1.asg, e2.asg);
    }
  }
}
