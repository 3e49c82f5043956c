/** `Result`: the changes made by one rule application or one propagation
    round, and the changes a rollback must undo. */
module Changesets {
  import opened Wrappers
  import opened Assignments
  import opened Goals
  import opened Rules

  /** `trigger` is the record the rule was applied to (null for a pass),
      `application` the cursor of a nondeterministic choice. The record
      collections are insertion-ordered sets. */
  datatype Changeset = Changeset(
    trigger: Option<Sub>,
    application: Option<Application>,
    successful: bool,
    solved: set<Sub>,
    newSolved: seq<Sub>,
    newUnsolved: seq<Sub>,
    newSubsumers: Assignment)

  /** `new Result(null, null)`. */
  const Blank: Changeset := Changeset(None, None, true, {}, [], [], map[])

  /** Insertion-ordered set union: `a` followed by the records of `b` not yet seen. */
  function Union(a: seq<Sub>, b: seq<Sub>): (r: seq<Sub>)
    ensures Elems(r) == Elems(a) + Elems(b)
    ensures |a| <= |r| && r[..|a|] == a
    decreases |b|
  {
    if b == [] then a
    else
      ElemsCons(b);
      ElemsConcat(a, [b[0]]);
      var r := Union(if b[0] in a then a else a + [b[0]], b[1..]);
      assert r[..|a|] == (if b[0] in a then a else a + [b[0]])[..|a|];
      r
  }

  /** `res.amend(other)`: adds every change of `other` to `res`. */
  function Amend(res: Changeset, other: Changeset): (r: Changeset)
    ensures r.trigger == res.trigger && r.application == res.application && r.successful == res.successful
    ensures r.solved == res.solved + other.solved
    ensures Elems(r.newSolved) == Elems(res.newSolved) + Elems(other.newSolved)
    ensures Elems(r.newUnsolved) == Elems(res.newUnsolved) + Elems(other.newUnsolved)
    ensures forall v :: Subsumers(r.newSubsumers, v) == Subsumers(res.newSubsumers, v) + Subsumers(other.newSubsumers, v)
  {
    res.(solved := res.solved + other.solved,
         newSolved := Union(res.newSolved, other.newSolved),
         newUnsolved := Union(res.newUnsolved, other.newUnsolved),
         newSubsumers := Merge(res.newSubsumers, other.newSubsumers))
  }

  /** The records a rollback removes from the goal. */
  function Created(res: Changeset): set<Sub> {
    Elems(res.newSolved) + Elems(res.newUnsolved)
  }

  /** The records whose flag a rollback clears. */
  function Unsettled(res: Changeset): set<Sub> {
    res.solved + (if res.trigger.Some? then {res.trigger.value} else {})
  }
}
