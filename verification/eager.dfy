/** One pass of eager rules over a collection of records
    (`applyEagerRules(subs, rules, currentAssignment)`, lines 234-255 of
    RuleBasedUnificationAlgorithm.java) and the rule lookup it relies on. */
module EagerRules {
  import opened Wrappers
  import opened Assignments
  import opened Goals
  import opened Rules
  import opened Changesets

  /** `tryApplyRule`: the first (or next) application of `rule` to `s`, applied;
      `None` when the rule has no (further) application. */
  function TryApplyRule(o: Oracle, s: Sub, rule: Rule, previous: Option<Application>, a: Option<Assignment>): (r: Option<Changeset>)
    ensures r.Some? ==> r.value.trigger == Some(s) && r.value.application.Some?
                        && r.value.application.value.rule == rule
                        && r.value.solved == {} && r.value.newSolved == []
    ensures r.Some? && previous.Some? ==> r.value.application.value.cursor > previous.value.cursor
    ensures r.Some? ==> r.value.application.value.cursor < o.choices(rule, s)
    ensures r.Some? ==> o.enabled(rule, s, a, r.value.application.value.cursor)
                        && r.value.successful == o.apply(rule, s, a, r.value.application.value.cursor).successful
    ensures r.None? <==> (if previous.None? then FirstApplication(o, rule, s, a).None?
                          else NextApplication(o, rule, s, a, previous.value).None?)
  {
    var next := if previous.None? then FirstApplication(o, rule, s, a)
                else NextApplication(o, rule, s, a, previous.value);
    match next
    case None => None
    case Some(app) =>
      var d := o.apply(rule, s, a, app.cursor);
      Some(Changeset(Some(s), Some(app), d.successful, {}, [], d.newUnsolved, d.newSubsumers))
  }

  /** `tryApplyRule` takes the least applicable cursor after `previous`: none
      between them is skipped, and `null` means none is left. */
  lemma TryApplyRuleIsLeast(o: Oracle, s: Sub, rule: Rule, previous: Option<Application>, a: Option<Assignment>)
    ensures var from := if previous.None? then 0 else previous.value.cursor + 1;
            var r := TryApplyRule(o, s, rule, previous, a);
            forall c :: from <= c < (if r.Some? then r.value.application.value.cursor else o.choices(rule, s)) ==>
              !o.enabled(rule, s, a, c)
  {
  }

  /** The index of the first rule of `rules` that has an application to `s`. */
  function FirstFiring(o: Oracle, rules: seq<Rule>, s: Sub, a: Option<Assignment>): (r: Option<nat>)
    ensures r.Some? ==> r.value < |rules| && FirstApplication(o, rules[r.value], s, a).Some?
    ensures forall j :: 0 <= j < (if r.Some? then r.value else |rules|) ==> FirstApplication(o, rules[j], s, a).None?
  {
    FirstFiringFrom(o, rules, s, a, 0)
  }

  function FirstFiringFrom(o: Oracle, rules: seq<Rule>, s: Sub, a: Option<Assignment>, i: nat): (r: Option<nat>)
    requires i <= |rules|
    requires forall j :: 0 <= j < i ==> FirstApplication(o, rules[j], s, a).None?
    ensures r.Some? ==> i <= r.value < |rules| && FirstApplication(o, rules[r.value], s, a).Some?
    ensures forall j :: 0 <= j < (if r.Some? then r.value else |rules|) ==> FirstApplication(o, rules[j], s, a).None?
    decreases |rules| - i
  {
    if i == |rules| then None
    else if FirstApplication(o, rules[i], s, a).Some? then Some(i)
    else FirstFiringFrom(o, rules, s, a, i + 1)
  }

  /** The pass with an accumulator `acc` and the (possibly null) assignment
      `cur` the rules see, which grows as records are solved. Returns the
      accumulated changes, or the first unsuccessful rule result, together with
      the assignment as the pass left it. */
  function Pass(o: Oracle, g: Goal, subs: seq<Sub>, rules: seq<Rule>, cur: Option<Assignment>, acc: Changeset): (r: (Changeset, Option<Assignment>))
    ensures r.1.Some? == cur.Some?
    ensures r.0.successful ==> r.0.trigger == acc.trigger && r.0.application == acc.application
                               && r.0.newSolved == acc.newSolved && r.0.newUnsolved == acc.newUnsolved
    ensures r.0.successful ==> acc.solved <= r.0.solved <= acc.solved + (Elems(subs) - g.solved)
    ensures acc.successful && !r.0.successful ==>
              r.0.trigger.Some? && r.0.trigger.value in subs && r.0.trigger.value !in g.solved
              && r.0.application.Some? && r.0.application.value.rule in rules
    decreases |subs|
  {
    if subs == [] then (acc, cur)
    else
      ElemsCons(subs);
      var s := subs[0];
      if s in g.solved then Pass(o, g, subs[1..], rules, cur, acc)
      else match FirstFiring(o, rules, s, cur)
        case None => Pass(o, g, subs[1..], rules, cur, acc)
        case Some(i) =>
          var fired := TryApplyRule(o, s, rules[i], None, cur).value;
          if !fired.successful then (fired, cur)
          else
            var acc' := acc.(solved := acc.solved + {s},
                             newSubsumers := Merge(acc.newSubsumers, fired.newSubsumers));
            var cur' := if cur.Some? then Some(Merge(cur.value, fired.newSubsumers)) else None;
            Pass(o, g, subs[1..], rules, cur', acc')
  }

  /** `applyEagerRules(subs, rules, currentAssignment)`. */
  function EagerPass(o: Oracle, g: Goal, subs: seq<Sub>, rules: seq<Rule>, cur: Option<Assignment>): (r: (Changeset, Option<Assignment>))
    ensures r.1.Some? == cur.Some?
    ensures r.0.successful ==> r.0.trigger.None? && r.0.application.None?
                               && r.0.newSolved == [] && r.0.newUnsolved == []
                               && r.0.solved <= Elems(subs) && r.0.solved !! g.solved
    ensures !r.0.successful ==>
              r.0.trigger.Some? && r.0.trigger.value in subs && r.0.trigger.value !in g.solved
              && r.0.application.Some? && r.0.application.value.rule in rules
  {
    Pass(o, g, subs, rules, cur, Blank)
  }

  /** The mirror of the pass: what the pass adds to `cur` is exactly what it
      reports as new subsumers. */
  lemma {:induction false} PassMirrors(o: Oracle, g: Goal, subs: seq<Sub>, rules: seq<Rule>, c: Assignment, acc: Changeset, base: Assignment)
    requires c == Merge(base, acc.newSubsumers)
    ensures var r := Pass(o, g, subs, rules, Some(c), acc);
            r.0.successful ==> r.1 == Some(Merge(base, r.0.newSubsumers))
    decreases |subs|
  {
    if subs != [] {
      var s := subs[0];
      if s in g.solved {
        PassMirrors(o, g, subs[1..], rules, c, acc, base);
      } else {
        match FirstFiring(o, rules, s, Some(c))
        case None =>
          PassMirrors(o, g, subs[1..], rules, c, acc, base);
        case Some(i) =>
          var fired := TryApplyRule(o, s, rules[i], None, Some(c)).value;
          if fired.successful {
            var acc' := acc.(solved := acc.solved + {s},
                             newSubsumers := Merge(acc.newSubsumers, fired.newSubsumers));
            MergeAssociative(base, acc.newSubsumers, fired.newSubsumers);
            PassMirrors(o, g, subs[1..], rules, Merge(c, fired.newSubsumers), acc', base);
          }
      }
    }
  }

  /** A successful pass with an assignment leaves it equal to the old one
      merged with the reported new subsumers. */
  lemma EagerPassMirrors(o: Oracle, g: Goal, subs: seq<Sub>, rules: seq<Rule>, c: Assignment)
    requires Canonical(c)
    ensures var r := EagerPass(o, g, subs, rules, Some(c));
            r.0.successful ==> r.1 == Some(Merge(c, r.0.newSubsumers))
  {
    MergeNothing(c, map[]);
    PassMirrors(o, g, subs, rules, c, Blank, c);
  }

  /** The static rules never add subsumers: in the source they are given a null
      assignment. */
  ghost predicate StaticRulesAddNoSubsumers(o: Oracle) {
    forall r: Rule, s: Sub, a: Option<Assignment>, c: nat ::
      r in StaticEagerRules ==> NoSubsumers(o.apply(r, s, a, c).newSubsumers)
  }

  lemma {:induction false} PassAddsNoSubsumers(o: Oracle, g: Goal, subs: seq<Sub>, cur: Option<Assignment>, acc: Changeset)
    requires StaticRulesAddNoSubsumers(o)
    requires NoSubsumers(acc.newSubsumers)
    ensures var r := Pass(o, g, subs, StaticEagerRules, cur, acc);
            r.0.successful ==> NoSubsumers(r.0.newSubsumers)
    decreases |subs|
  {
    if subs != [] {
      var s := subs[0];
      if s in g.solved {
        PassAddsNoSubsumers(o, g, subs[1..], cur, acc);
      } else {
        match FirstFiring(o, StaticEagerRules, s, cur)
        case None =>
          PassAddsNoSubsumers(o, g, subs[1..], cur, acc);
        case Some(i) =>
          var fired := TryApplyRule(o, s, StaticEagerRules[i], None, cur).value;
          if fired.successful {
            var app := FirstApplication(o, StaticEagerRules[i], s, cur).value;
            assert NoSubsumers(o.apply(StaticEagerRules[i], s, cur, app.cursor).newSubsumers);
            var n := Merge(acc.newSubsumers, fired.newSubsumers);
            assert NoSubsumers(n) by {
              forall v | v in n ensures n[v] == {} {
                assert Subsumers(n, v) == Subsumers(acc.newSubsumers, v) + Subsumers(fired.newSubsumers, v);
              }
            }
            var acc' := acc.(solved := acc.solved + {s}, newSubsumers := n);
            var cur' := if cur.Some? then Some(Merge(cur.value, fired.newSubsumers)) else None;
            PassAddsNoSubsumers(o, g, subs[1..], cur', acc');
          }
      }
    }
  }

  /** A pass of the static rules reports no new subsumers. */
  lemma StaticPassAddsNoSubsumers(o: Oracle, g: Goal, subs: seq<Sub>, cur: Option<Assignment>)
    requires StaticRulesAddNoSubsumers(o)
    ensures var r := EagerPass(o, g, subs, StaticEagerRules, cur);
            r.0.successful ==> NoSubsumers(r.0.newSubsumers)
  {
    PassAddsNoSubsumers(o, g, subs, cur, Blank);
  }

  /** Solved records play no part in a pass: it behaves as if they were absent. */
  lemma {:induction false} PassSkipsSolved(o: Oracle, g: Goal, subs: seq<Sub>, rules: seq<Rule>, cur: Option<Assignment>, acc: Changeset)
    ensures Pass(o, g, subs, rules, cur, acc) == Pass(o, g, Without(subs, g.solved), rules, cur, acc)
    decreases |subs|
  {
    if subs != [] {
      var rest := Without(subs[1..], g.solved);
      if subs[0] in g.solved {
        assert Without(subs, g.solved) == rest;
        PassSkipsSolved(o, g, subs[1..], rules, cur, acc);
      } else {
        var w := Without(subs, g.solved);
        assert w == [subs[0]] + rest;
        assert w[0] == subs[0] && w[1..] == rest;
        match FirstFiring(o, rules, subs[0], cur)
        case None =>
          PassSkipsSolved(o, g, subs[1..], rules, cur, acc);
        case Some(i) =>
          var fired := TryApplyRule(o, subs[0], rules[i], None, cur).value;
          if fired.successful {
            var acc' := acc.(solved := acc.solved + {subs[0]},
                             newSubsumers := Merge(acc.newSubsumers, fired.newSubsumers));
            var cur' := if cur.Some? then Some(Merge(cur.value, fired.newSubsumers)) else None;
            PassSkipsSolved(o, g, subs[1..], rules, cur', acc');
          }
      }
    }
  }

  /** A pass over records that are all solved changes nothing and succeeds. */
  lemma PassOverSolvedIsEmpty(o: Oracle, g: Goal, subs: seq<Sub>, rules: seq<Rule>, cur: Option<Assignment>)
    requires Elems(subs) <= g.solved
    ensures EagerPass(o, g, subs, rules, cur) == (Blank, cur)
  {
    PassSkipsSolved(o, g, subs, rules, cur, Blank);
  }
}
