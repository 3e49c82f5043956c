/** `SatInput` (uel-sat): the clauses handed to a SAT solver, the greatest
    propositional variable they mention, and the literals a MaxSAT solver is
    asked to minimise. A Java `Set<Integer>` is a duplicate-free sequence in
    its iteration order; a null reference is `None`. */
module SatInputs {
  import opened Wrappers
  import opened JavaInts

  /** The end-of-clause marker of the solver interface (DIMACS): 0. */
  const EndOfClause: Int32 := 0

  predicate Distinct(s: seq<Int32>) {
    forall i, j :: 0 <= i < j < |s| ==> s[i] != s[j]
  }

  /** A set of literals, in iteration order. */
  type Literals = s: seq<Int32> | Distinct(s)

  function Elems(s: seq<Int32>): set<Int32> {
    set x | x in s
  }

  /** The greatest propositional variable is kept unbounded: the source's
      `Integer` cannot hold the variable of the literal `MinInt` (see
      `UpdateLastIdAsWritten`). */
  datatype SatInput = SatInput(clauses: seq<Literals>, lastId: nat, minimize: Literals)

  /** A new SAT input (line 75). */
  const Empty: SatInput := SatInput([], 0, [])

  /** The variable of a literal. */
  function Abs(l: Int32): nat {
    if l < 0 then -(l as int) else l
  }

  function Max(a: nat, b: nat): nat {
    if a < b then b else a
  }

  /** The greatest variable of the literals; 0 for none. */
  function MaxAbs(c: seq<Int32>): (m: nat)
    ensures forall l: Int32 :: l in c ==> Abs(l) <= m
    ensures c == [] ==> m == 0
    ensures c != [] ==> exists l: Int32 :: l in c && Abs(l) == m
  {
    if c == [] then 0
    else
      var init := c[..|c| - 1];
      assert forall l: Int32 :: l in init ==> l in c;
      assert c == init + [c[|c| - 1]];
      Max(MaxAbs(init), Abs(c[|c| - 1]))
  }

  /** The greatest variable over all clauses. */
  function Greatest(cs: seq<Literals>): nat {
    if cs == [] then 0 else Max(Greatest(cs[..|cs| - 1]), MaxAbs(cs[|cs| - 1]))
  }

  /** `lastId` is the greatest variable of the clauses kept (line 186). */
  predicate Tracks(s: SatInput) {
    s.lastId == Greatest(s.clauses)
  }

  /** `updateLastId` (lines 246-256): raises `lastId` to the greatest
      variable of the clause, and tells whether it rose. */
  method UpdateLastId(lastId: nat, clause: seq<Int32>) returns (r: nat, changed: bool)
    ensures lastId <= r && forall l: Int32 :: l in clause ==> Abs(l) <= r
    ensures r == lastId || exists l: Int32 :: l in clause && Abs(l) == r
    ensures changed <==> r != lastId
    ensures r == Max(lastId, MaxAbs(clause))
  {
    r, changed := lastId, false;
    for i := 0 to |clause|
      invariant r == Max(lastId, MaxAbs(clause[..i]))
      invariant changed <==> r != lastId
    {
      var next := clause[..i + 1];
      assert next[..i] == clause[..i] && next[i] == clause[i];
      assert MaxAbs(next) == Max(MaxAbs(clause[..i]), Abs(clause[i]));
      var abs: nat := if clause[i] < 0 then -1 * (clause[i] as int) else clause[i];
      if abs > r {
        r, changed := abs, true;
      }
    }
    assert clause[..|clause|] == clause;
  }

  /** The absolute value as line 249 computes it: `(-1) * elem` in `int`,
      which wraps for `MinInt`. */
  function AbsAsWritten(l: Int32): Int32 {
    if l < 0 then Wrap(-1 * (l as int)) else l
  }

  /** `updateLastId` as written, on an `int`-sized `lastId`. */
  function UpdateLastIdAsWritten(lastId: Int32, clause: seq<Int32>): Int32 {
    if clause == [] then lastId
    else
      var prev := UpdateLastIdAsWritten(lastId, clause[..|clause| - 1]);
      var abs := AbsAsWritten(clause[|clause| - 1]);
      if abs > prev then abs else prev
  }

  /** The unit clause of the literal `MinInt` leaves `lastId` at 0 although
      it mentions the variable 2^31, which `MaxAbs` reports. */
  lemma UpdateLastIdMissesMinInt()
    ensures UpdateLastIdAsWritten(0, [MinInt]) == 0
    ensures MaxAbs([MinInt]) == 0x8000_0000
  {
    assert [MinInt as Int32][..0] == [];
  }

  datatype AddError = NullArgument | EmptyClause | ContainsEndOfClause

  /** A clause that `add` accepts. */
  predicate Acceptable(clause: Option<Literals>) {
    clause.Some? && clause.value != [] && EndOfClause !in clause.value
  }

  /** The error `add` raises on a clause it does not accept. */
  function Refusal(clause: Option<Literals>): AddError
    requires !Acceptable(clause)
  {
    if clause.None? then NullArgument
    else if clause.value == [] then EmptyClause
    else ContainsEndOfClause
  }

  /** `add(Set<Integer>)` (lines 97-114): refuses a null clause, an empty
      one and one holding the end-of-clause marker; otherwise appends the
      clause, raises `lastId` and reports a change. */
  function Add(s: SatInput, clause: Option<Literals>): (r: Result<(SatInput, bool), AddError>)
    ensures clause.None? ==> r == Err(NullArgument)
    ensures clause.Some? && clause.value == [] ==> r == Err(EmptyClause)
    ensures clause.Some? && clause.value != [] && EndOfClause in clause.value ==> r == Err(ContainsEndOfClause)
    ensures r.Ok? <==> Acceptable(clause)
    ensures r.Ok? ==> && r.value.1
                      && r.value.0.clauses == s.clauses + [clause.value]
                      && r.value.0.minimize == s.minimize
                      && r.value.0.lastId == Max(s.lastId, MaxAbs(clause.value))
    ensures r.Ok? && Tracks(s) ==> Tracks(r.value.0)
  {
    if !Acceptable(clause) then Err(Refusal(clause))
    else
      var clauses := s.clauses + [clause.value];
      assert clauses[..|clauses| - 1] == s.clauses;
      Ok((s.(clauses := clauses, lastId := Max(s.lastId, MaxAbs(clause.value))), true))
  }

  /** `add(Integer)` (lines 85-87): the unit clause of `literal`. */
  function AddUnit(s: SatInput, literal: Int32): (r: Result<(SatInput, bool), AddError>)
    ensures r.Ok? <==> literal != EndOfClause
    ensures r.Err? ==> r.error == ContainsEndOfClause
    ensures r.Ok? ==> && r.value.0.clauses == s.clauses + [[literal]]
                      && r.value.0.lastId == Max(s.lastId, Abs(literal))
  {
    Add(s, Some([literal]))
  }

  /** The clauses of the longest prefix of acceptable ones. */
  function AcceptedPrefix(cs: seq<Option<Literals>>): (p: seq<Literals>)
    ensures |p| <= |cs|
    ensures forall i :: 0 <= i < |p| ==> Acceptable(cs[i]) && cs[i] == Some(p[i])
    ensures |p| < |cs| ==> !Acceptable(cs[|p|])
  {
    if cs == [] || !Acceptable(cs[0]) then [] else [cs[0].value] + AcceptedPrefix(cs[1..])
  }

  /** The loop of `addAll` from the clause list `cs` on, `changed` being
      what the earlier additions reported: the acceptable prefix is added,
      and the first refused clause, if any, raises its error. */
  function AddEach(s: SatInput, cs: seq<Option<Literals>>, changed: bool): (r: (SatInput, Result<bool, AddError>))
    ensures var p := AcceptedPrefix(cs);
            && r.0.clauses == s.clauses + p
            && r.0.minimize == s.minimize
            && (r.1.Ok? <==> |p| == |cs|)
            && (r.1.Ok? ==> r.1.value == (changed || cs != []))
            && (r.1.Err? ==> r.1.error == Refusal(cs[|p|]))
    decreases |cs|
  {
    if cs == [] then (s, Ok(changed))
    else match Add(s, cs[0])
      case Err(err) => (s, Err(err))
      case Ok((s', added)) =>
        var r := AddEach(s', cs[1..], changed || added);
        r
  }

  /** The loop of `addAll` keeps `lastId` tracking the clauses. */
  lemma {:induction false} AddEachTracks(s: SatInput, cs: seq<Option<Literals>>, changed: bool)
    requires Tracks(s)
    ensures Tracks(AddEach(s, cs, changed).0)
    decreases |cs|
  {
    if cs != [] {
      match Add(s, cs[0])
      case Err(_) =>
      case Ok((s', added)) => AddEachTracks(s', cs[1..], changed || added);
    }
  }

  /** `addAll` (lines 123-134): adds the clauses in order; a refused clause
      raises its error with the clauses before it kept. The result tells
      whether anything was added. */
  function AddAll(s: SatInput, clauses: Option<seq<Option<Literals>>>): (r: (SatInput, Result<bool, AddError>))
    ensures clauses.None? ==> r == (s, Err(NullArgument))
    ensures clauses.Some? ==> r == AddEach(s, clauses.value, false)
  {
    if clauses.None? then (s, Err(NullArgument)) else AddEach(s, clauses.value, false)
  }

  /** `addMinimizeLiteral` (lines 143-145): a set insertion that tells
      whether the literal was new. */
  function AddMinimizeLiteral(s: SatInput, l: Int32): (r: (SatInput, bool))
    ensures Elems(r.0.minimize) == Elems(s.minimize) + {l}
    ensures r.1 <==> l !in s.minimize
    ensures r.0.clauses == s.clauses && r.0.lastId == s.lastId
  {
    if l in s.minimize then (s, false)
    else
      var m := s.minimize + [l];
      assert Elems(m) == Elems(s.minimize) + {l};
      (s.(minimize := m), true)
  }

  /** `addMinimizeLiterals` (lines 154-156): inserts every literal and tells
      whether any was new. */
  function AddMinimizeLiterals(s: SatInput, ls: Literals): (r: (SatInput, bool))
    ensures Elems(r.0.minimize) == Elems(s.minimize) + Elems(ls)
    ensures r.1 <==> exists l: Int32 :: l in ls && l !in s.minimize
    ensures r.0.clauses == s.clauses && r.0.lastId == s.lastId
    decreases |ls|
  {
    if ls == [] then (s, false)
    else
      var (s1, new1) := AddMinimizeLiteral(s, ls[0]);
      var (s2, new2) := AddMinimizeLiterals(s1, ls[1..]);
      assert Elems(ls) == {ls[0]} + Elems(ls[1..]);
      assert forall l: Int32 :: l in ls ==> l == ls[0] || l in ls[1..];
      (s2, new1 || new2)
  }

  /** `clear` (lines 161-164): drops the clauses and resets `lastId`; the
      literals to minimise stay. */
  function Clear(s: SatInput): (r: SatInput)
    ensures r.clauses == [] && r.minimize == s.minimize
    ensures Tracks(r)
  {
    s.(clauses := [], lastId := 0)
  }

  /** The clause lists hold equal sets, position by position (the `equals`
      of a list of sets). */
  predicate SameClauses(xs: seq<Literals>, ys: seq<Literals>) {
    |xs| == |ys| && forall i :: 0 <= i < |xs| ==> Elems(xs[i]) == Elems(ys[i])
  }

  /** `equals` (lines 166-174) as evidently intended: equal clause lists and
      equal `lastId` values; the literals to minimise play no part. */
  predicate Equals(a: SatInput, b: SatInput) {
    SameClauses(a.clauses, b.clauses) && a.lastId == b.lastId
  }

  /** `==` on two `Integer` references: equal values are the same object
      when `Integer.valueOf` caches them (-128 to 127) and otherwise only
      when `sameObject` says so. */
  predicate SameInteger(x: int, y: int, sameObject: bool) {
    x == y && (-128 <= x <= 127 || sameObject)
  }

  /** `equals` as written: `this == o` when `identical`, else the clause
      lists and `lastId` compared with `==`. */
  predicate EqualsAsWritten(a: SatInput, b: SatInput, identical: bool, sameLastIdObject: bool) {
    identical || (SameClauses(a.clauses, b.clauses) && SameInteger(a.lastId, b.lastId, sameLastIdObject))
  }

  /** Two separately built inputs with the clause `{128}` are equal in
      value, but as written `equals` compares their two `Integer(128)`
      objects by reference and answers false. */
  lemma EqualsAsWrittenMissesCopies()
    ensures var a := SatInput([[128]], 128, []);
            Tracks(a) && Equals(a, a) && !EqualsAsWritten(a, a, false, false)
  {
    var c: seq<Int32> := [128];
    assert c[..0] == [];
    var cs: seq<Literals> := [c];
    assert cs[..0] == [];
  }

  /** For `lastId` values in the `Integer` cache, `equals` as written agrees
      with the intended one. */
  lemma EqualsAsWrittenInCache(a: SatInput, b: SatInput, identical: bool, sameLastIdObject: bool)
    requires a.lastId <= 127
    requires identical ==> a == b
    ensures EqualsAsWritten(a, b, identical, sameLastIdObject) == Equals(a, b)
  {
  }

  /** `equals` is an equivalence and ignores the literals to minimise. */
  lemma EqualsIsEquivalence(a: SatInput, b: SatInput, c: SatInput, m: Literals)
    ensures Equals(a, a)
    ensures Equals(a, b) ==> Equals(b, a)
    ensures Equals(a, b) && Equals(b, c) ==> Equals(a, c)
    ensures Equals(a, b) == Equals(a, b.(minimize := m))
  {
  }

  /** Literal sequences with the same elements have the same greatest
      variable. */
  lemma MaxAbsOfElems(x: seq<Int32>, y: seq<Int32>)
    requires Elems(x) == Elems(y)
    ensures MaxAbs(x) == MaxAbs(y)
  {
    var mx, my := MaxAbs(x), MaxAbs(y);
    if x != [] {
      var l: Int32 :| l in x && Abs(l) == mx;
      assert l in Elems(y);
    }
    if y != [] {
      var l: Int32 :| l in y && Abs(l) == my;
      assert l in Elems(x);
    }
  }

  lemma {:induction false} GreatestOfSame(xs: seq<Literals>, ys: seq<Literals>)
    requires SameClauses(xs, ys)
    ensures Greatest(xs) == Greatest(ys)
    decreases |xs|
  {
    if xs != [] {
      var n := |xs| - 1;
      GreatestOfSame(xs[..n], ys[..n]);
      MaxAbsOfElems(xs[n], ys[n]);
    }
  }

  /** With `lastId` tracking the clauses, inputs are equal exactly when
      their clause lists are. */
  lemma EqualsByClauses(a: SatInput, b: SatInput)
    requires Tracks(a) && Tracks(b)
    ensures Equals(a, b) <==> SameClauses(a.clauses, b.clauses)
  {
    if SameClauses(a.clauses, b.clauses) {
      GreatestOfSame(a.clauses, b.clauses);
    }
  }

  /** `toArray` (lines 58-66): an array of the clause's literals in
      iteration order. */
  method ToArray(clause: Literals) returns (r: array<Int32>)
    ensures r.Length == |clause|
    ensures forall i :: 0 <= i < r.Length ==> r[i] == clause[i]
    ensures forall l: Int32 :: l in clause <==> l in r[..]
  {
    r := new Int32[|clause|];
    var index := 0;
    while index < |clause|
      invariant 0 <= index <= |clause|
      invariant forall i :: 0 <= i < index ==> r[i] == clause[i]
    {
      r[index] := clause[index];
      index := index + 1;
    }
    assert r[..] == clause;
  }
}
