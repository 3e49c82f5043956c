/** The seven rules of the algorithm as a closed set, and the boundary to the
    rule implementations, which are not part of this model. A rule offers, for a
    record, a finite ordered list of alternatives addressed by a cursor; which of
    them are applicable under an assignment, what applying one produces, and how
    the goal expands are supplied by an `Oracle`. */
module Rules {
  import opened Wrappers
  import opened Assignments
  import opened Goals

  datatype Rule =
    | EagerGroundSolving | EagerSolving1 | EagerConflict
    | EagerSolving2 | EagerExtension
    | Decomposition | Extension

  /** The rule lists built by `initRules`, in their order. */
  const StaticEagerRules: seq<Rule> := [EagerGroundSolving, EagerSolving1, EagerConflict]
  const DynamicEagerRules: seq<Rule> := [EagerSolving2, EagerExtension]
  const NondeterministicRules: seq<Rule> := [Decomposition, Extension]

  /** `Rule.Application`: the rule that produced it and its resumption cursor. */
  datatype Application = Application(rule: Rule, cursor: nat)

  /** What one rule application reports: success, records it created, and
      subsumers it adds. */
  datatype Delta = Delta(successful: bool, newUnsolved: seq<Sub>, newSubsumers: Assignment)

  /** The behaviour of the rule classes and of `NormalizedGoal.expand`.
      `choices(r, s)` bounds the cursors of rule `r` on record `s`;
      `enabled(r, s, a, c)` says whether alternative `c` exists under the
      assignment `a` (`None` for a null assignment); `apply` applies it.
      `expandSolved(subs, s, S)` and `expandSubsumers(subs, n)` are the
      candidate records of the two forms of `goal.expand`. */
  datatype Oracle = Oracle(
    choices: (Rule, Sub) -> nat,
    enabled: (Rule, Sub, Option<Assignment>, nat) -> bool,
    apply: (Rule, Sub, Option<Assignment>, nat) -> Delta,
    expandSolved: (seq<Sub>, Sub, set<Atom>) -> seq<Sub>,
    expandSubsumers: (seq<Sub>, Assignment) -> seq<Sub>)

  /** The least applicable cursor that is at least `from`. */
  function NextEnabled(o: Oracle, r: Rule, s: Sub, a: Option<Assignment>, from: nat): (c: Option<nat>)
    ensures c.Some? ==> from <= c.value < o.choices(r, s) && o.enabled(r, s, a, c.value)
    ensures forall k :: from <= k < (if c.Some? then c.value else o.choices(r, s)) ==> !o.enabled(r, s, a, k)
    decreases o.choices(r, s) - from
  {
    if from >= o.choices(r, s) then None
    else if o.enabled(r, s, a, from) then Some(from)
    else NextEnabled(o, r, s, a, from + 1)
  }

  /** `rule.getFirstApplication(sub, a)`. */
  function FirstApplication(o: Oracle, r: Rule, s: Sub, a: Option<Assignment>): Option<Application> {
    match NextEnabled(o, r, s, a, 0)
    case None => None
    case Some(c) => Some(Application(r, c))
  }

  /** `rule.getNextApplication(sub, a, previous)`: strictly after `previous`. */
  function NextApplication(o: Oracle, r: Rule, s: Sub, a: Option<Assignment>, previous: Application): Option<Application> {
    match NextEnabled(o, r, s, a, previous.cursor + 1)
    case None => None
    case Some(c) => Some(Application(r, c))
  }

  /** The index of a rule in a list, as `List.indexOf`. */
  function IndexOf(rules: seq<Rule>, r: Rule): (i: nat)
    requires r in rules
    ensures i < |rules| && rules[i] == r && forall j :: 0 <= j < i ==> rules[j] != r
  {
    if rules[0] == r then 0 else 1 + IndexOf(rules[1..], r)
  }
}
