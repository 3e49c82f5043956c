/** Flat subsumptions and the normalized goal the rule-based algorithm works on.
    A record is a value `body ⊑ head`; the goal keeps its records in insertion
    order together with the set of records whose solved flag is set. */
module Goals {
  import opened Wrappers
  import opened Assignments

  datatype Sub = Sub(body: set<Atom>, head: Atom)

  /** `subs` in insertion order, `solved` the records flagged solved, `maxSize`
      the largest size the goal has had. */
  datatype Goal = Goal(subs: seq<Sub>, solved: set<Sub>, maxSize: nat)

  function Elems<T>(s: seq<T>): set<T> {
    set x | x in s
  }

  lemma ElemsConcat<T>(a: seq<T>, b: seq<T>)
    ensures Elems(a + b) == Elems(a) + Elems(b)
  {
    forall x | x in Elems(a + b) ensures x in Elems(a) + Elems(b) {
      var i :| 0 <= i < |a + b| && (a + b)[i] == x;
      if i < |a| { assert a[i] == x; } else { assert b[i - |a|] == x; }
    }
  }

  lemma ElemsCons<T>(s: seq<T>)
    requires s != []
    ensures Elems(s) == {s[0]} + Elems(s[1..])
  {
    assert s == [s[0]] + s[1..];
    ElemsConcat([s[0]], s[1..]);
  }

  /** Only records of the goal carry a solved flag that can be observed. */
  predicate WellFormed(g: Goal) {
    g.solved <= Elems(g.subs)
  }

  /** Sets the solved flag of those records of `S` that are in the goal. */
  function MarkSolved(g: Goal, S: set<Sub>): (r: Goal)
    ensures r.subs == g.subs && r.maxSize == g.maxSize
    ensures WellFormed(g) ==> WellFormed(r)
    ensures forall x :: x in r.solved <==> x in g.solved || (x in S && x in g.subs)
  {
    g.(solved := g.solved + (S * Elems(g.subs)))
  }

  /** Clears the solved flag of every record of `S`. */
  function Unmark(g: Goal, S: set<Sub>): (r: Goal)
    ensures r.subs == g.subs && r.maxSize == g.maxSize
    ensures WellFormed(g) ==> WellFormed(r)
    ensures forall x :: x in r.solved <==> x in g.solved && x !in S
  {
    g.(solved := g.solved - S)
  }

  /** The records of `s` not in `S`, in their original order. */
  function Without(s: seq<Sub>, S: set<Sub>): (r: seq<Sub>)
    ensures Elems(r) == Elems(s) - S
    ensures |r| <= |s|
    ensures Elems(s) <= S ==> r == []
  {
    if s == [] then []
    else
      ElemsCons(s);
      var rest := Without(s[1..], S);
      ElemsConcat(if s[0] in S then [] else [s[0]], rest);
      (if s[0] in S then [] else [s[0]]) + rest
  }

  lemma {:induction false} WithoutAppend(a: seq<Sub>, b: seq<Sub>, S: set<Sub>)
    ensures Without(a + b, S) == Without(a, S) + Without(b, S)
  {
    if a != [] {
      assert (a + b)[1..] == a[1..] + b;
      WithoutAppend(a[1..], b, S);
    } else {
      assert a + b == b;
    }
  }

  /** Removing records that do not occur changes nothing. */
  lemma {:induction false} WithoutAbsent(s: seq<Sub>, S: set<Sub>, A: set<Sub>)
    requires Elems(s) !! A
    ensures Without(s, S + A) == Without(s, S)
  {
    if s != [] {
      assert Elems(s[1..]) <= Elems(s);
      WithoutAbsent(s[1..], S, A);
    }
  }

  lemma {:induction false} WithoutNothing(s: seq<Sub>, S: set<Sub>)
    requires Elems(s) !! S
    ensures Without(s, S) == s
  {
    if s != [] {
      assert Elems(s[1..]) <= Elems(s);
      WithoutNothing(s[1..], S);
    }
  }

  /** `goal.removeAll(S)`: the records of `S` leave the goal, flags included. */
  function RemoveAll(g: Goal, S: set<Sub>): (r: Goal)
    ensures Elems(r.subs) == Elems(g.subs) - S
    ensures r.solved == g.solved - S
    ensures WellFormed(g) ==> WellFormed(r)
  {
    Goal(Without(g.subs, S), g.solved - S, g.maxSize)
  }

  /** No record occurs twice. */
  predicate Distinct(s: seq<Sub>) {
    forall j, k :: 0 <= j < k < |s| ==> s[j] != s[k]
  }

  /** `goal.addAll(cands)`: appends, in order, every candidate not already in the
      goal; new records are unsolved. Also returns the records it appended. */
  function AddAll(g: Goal, cands: seq<Sub>): (r: (Goal, seq<Sub>))
    ensures r.0.subs == g.subs + r.1
    ensures Elems(r.1) == Elems(cands) - Elems(g.subs)
    ensures r.0.solved == g.solved
    ensures r.0.maxSize >= g.maxSize
    ensures g.maxSize >= |g.subs| ==> r.0.maxSize >= |r.0.subs|
    ensures WellFormed(g) ==> WellFormed(r.0)
    ensures Distinct(g.subs) ==> Distinct(r.0.subs)
    decreases |cands|
  {
    if cands == [] then (g, [])
    else if cands[0] in g.subs then ElemsCons(cands); AddAll(g, cands[1..])
    else
      ElemsCons(cands);
      ElemsConcat(g.subs, [cands[0]]);
      var grown := Goal(g.subs + [cands[0]], g.solved, Max(g.maxSize, |g.subs| + 1));
      var (g', added) := AddAll(grown, cands[1..]);
      assert g'.subs == g.subs + ([cands[0]] + added);
      ElemsConcat([cands[0]], added);
      (g', [cands[0]] + added)
  }

  function Max(a: nat, b: nat): nat {
    if a < b then b else a
  }

  /** `chooseUnsolvedSubsumption`: the earliest record whose flag is not set. */
  function FirstUnsolved(g: Goal): (r: Option<nat>)
    ensures r.Some? ==> r.value < |g.subs| && g.subs[r.value] !in g.solved
                        && forall j :: 0 <= j < r.value ==> g.subs[j] in g.solved
    ensures r.None? <==> forall j :: 0 <= j < |g.subs| ==> g.subs[j] in g.solved
  {
    FirstUnsolvedFrom(g, 0)
  }

  function FirstUnsolvedFrom(g: Goal, i: nat): (r: Option<nat>)
    requires i <= |g.subs|
    requires forall j :: 0 <= j < i ==> g.subs[j] in g.solved
    ensures r.Some? ==> i <= r.value < |g.subs| && g.subs[r.value] !in g.solved
                        && forall j :: 0 <= j < r.value ==> g.subs[j] in g.solved
    ensures r.None? <==> forall j :: 0 <= j < |g.subs| ==> g.subs[j] in g.solved
    decreases |g.subs| - i
  {
    if i == |g.subs| then None
    else if g.subs[i] !in g.solved then Some(i)
    else FirstUnsolvedFrom(g, i + 1)
  }

  /** `getSubsumptionsByBodyVariable(v)`: the records whose body mentions `v`,
      in goal order. */
  function ByBodyVariable(g: Goal, v: Atom): (r: seq<Sub>)
    ensures Elems(r) == set x | x in g.subs && v in x.body
  {
    ByBodyVariableIn(g.subs, v)
  }

  function ByBodyVariableIn(s: seq<Sub>, v: Atom): (r: seq<Sub>)
    ensures Elems(r) == set x | x in s && v in x.body
  {
    if s == [] then []
    else
      ElemsCons(s);
      var rest := ByBodyVariableIn(s[1..], v);
      ElemsConcat(if v in s[0].body then [s[0]] else [], rest);
      (if v in s[0].body then [s[0]] else []) + rest
  }

  /** The records of `S` whose head is a variable. */
  function Headed(S: set<Sub>, vars: set<Atom>): set<Sub> {
    set x | x in S && x.head in vars
  }

  /** The records of `s` whose head is a variable, in order. */
  function VariableHeaded(s: seq<Sub>, vars: set<Atom>): (r: seq<Sub>)
    ensures Elems(r) == Headed(Elems(s), vars)
  {
    if s == [] then []
    else
      ElemsCons(s);
      var rest := VariableHeaded(s[1..], vars);
      ElemsConcat(if s[0].head in vars then [s[0]] else [], rest);
      (if s[0].head in vars then [s[0]] else []) + rest
  }
}
