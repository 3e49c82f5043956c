/** The assignment of the rule-based algorithm: for every variable, the set of
    atoms collected so far as its subsumers. Atoms are identified by their
    integer index in the atom manager. A variable without subsumers is simply
    absent, so two assignments with the same subsumer sets are the same value. */
module Assignments {

  type Atom = int

  type Assignment = map<Atom, set<Atom>>

  /** `getSubsumers(v)`: the subsumers of `v`, empty when `v` has none. */
  function Subsumers(a: Assignment, v: Atom): set<Atom> {
    if v in a then a[v] else {}
  }

  /** No variable is stored with an empty subsumer set. */
  predicate Canonical(a: Assignment) {
    forall v :: v in a ==> a[v] != {}
  }

  /** `isEmpty()`: no variable has a subsumer. */
  predicate NoSubsumers(a: Assignment) {
    forall v :: v in a ==> a[v] == {}
  }

  /** No subsumer is recorded in both assignments. */
  predicate Disjoint(a: Assignment, b: Assignment) {
    forall v :: v in a ==> Subsumers(a, v) !! Subsumers(b, v)
  }

  /** `addAll`: adds every subsumer of `b` to `a`. */
  function Merge(a: Assignment, b: Assignment): (r: Assignment)
    ensures Canonical(r)
    ensures forall v :: Subsumers(r, v) == Subsumers(a, v) + Subsumers(b, v)
  {
    map v | v in a.Keys + b.Keys && Subsumers(a, v) + Subsumers(b, v) != {} :: Subsumers(a, v) + Subsumers(b, v)
  }

  /** `removeAll`: removes every subsumer of `b` from `a`. */
  function Remove(a: Assignment, b: Assignment): (r: Assignment)
    ensures Canonical(r)
    ensures forall v :: Subsumers(r, v) == Subsumers(a, v) - Subsumers(b, v)
  {
    map v | v in a.Keys && Subsumers(a, v) - Subsumers(b, v) != {} :: Subsumers(a, v) - Subsumers(b, v)
  }

  /** Canonical assignments are equal as soon as they agree on every subsumer set. */
  lemma Extensionality(a: Assignment, b: Assignment)
    requires Canonical(a) && Canonical(b)
    requires forall v :: Subsumers(a, v) == Subsumers(b, v)
    ensures a == b
  {
    assert a.Keys == b.Keys by {
      forall v ensures v in a <==> v in b {
        assert Subsumers(a, v) == Subsumers(b, v);
      }
    }
    forall v | v in a ensures a[v] == b[v] {
      assert Subsumers(a, v) == Subsumers(b, v);
    }
  }

  /** Removing what was merged into a disjoint assignment restores it. */
  lemma RemoveUndoesMerge(a: Assignment, n: Assignment)
    requires Canonical(a) && Disjoint(a, n)
    ensures Remove(Merge(a, n), n) == a
  {
    var r := Remove(Merge(a, n), n);
    forall v ensures Subsumers(r, v) == Subsumers(a, v) {
      assert Subsumers(a, v) !! Subsumers(n, v);
    }
    Extensionality(r, a);
  }

  /** Stripping from `n` what `a` already holds does not change the merge. */
  lemma MergeStripped(a: Assignment, n: Assignment)
    ensures Merge(a, Remove(n, a)) == Merge(a, n)
    ensures Disjoint(a, Remove(n, a))
  {
    var l := Merge(a, Remove(n, a));
    var r := Merge(a, n);
    forall v ensures Subsumers(l, v) == Subsumers(r, v) {
    }
    Extensionality(l, r);
  }

  lemma MergeAssociative(a: Assignment, b: Assignment, c: Assignment)
    ensures Merge(Merge(a, b), c) == Merge(a, Merge(b, c))
  {
    var l := Merge(Merge(a, b), c);
    var r := Merge(a, Merge(b, c));
    forall v ensures Subsumers(l, v) == Subsumers(r, v) {
    }
    Extensionality(l, r);
  }

  lemma MergeNothing(a: Assignment, e: Assignment)
    requires Canonical(a) && NoSubsumers(e)
    ensures Merge(a, e) == a
  {
    var l := Merge(a, e);
    forall v ensures Subsumers(l, v) == Subsumers(a, v) {
      assert Subsumers(e, v) == {};
    }
    Extensionality(l, a);
  }

  lemma MergeEmptyLeft(b: Assignment)
    requires Canonical(b)
    ensures Merge(map[], b) == b
  {
    var l := Merge(map[], b);
    forall v ensures Subsumers(l, v) == Subsumers(b, v) {
    }
    Extensionality(l, b);
  }

  lemma Inhabited(S: set<Atom>)
    requires S != {}
    ensures exists y :: y in S
  {
    assert (forall y :: y !in S) ==> S == {};
  }

  /** Some atom of a non-empty set is below all others. */
  lemma LeastExists(S: set<Atom>)
    requires S != {}
    ensures exists m :: m in S && forall x :: x in S ==> m <= x
    decreases S
  {
    Inhabited(S);
    var y :| y in S;
    var rest := S - {y};
    if rest == {} {
      forall x | x in S ensures y <= x {
        assert x !in rest;
      }
    } else {
      LeastExists(rest);
      var m :| m in rest && forall x :: x in rest ==> m <= x;
      var k := if y < m then y else m;
      forall x | x in S ensures k <= x {
        if x != y {
          assert x in rest;
        }
      }
    }
  }

  function Least(S: set<Atom>): (m: Atom)
    requires S != {}
    ensures m in S && forall x :: x in S ==> m <= x
  {
    LeastExists(S);
    var m :| m in S && forall x :: x in S ==> m <= x; m
  }

  /** The atoms of `S` in ascending order: the order in which the variables of
      an assignment are visited. */
  function Ascending(S: set<Atom>): (r: seq<Atom>)
    ensures forall i :: 0 <= i < |r| ==> r[i] in S
    ensures forall x :: x in S ==> x in r
    ensures forall i, j :: 0 <= i < j < |r| ==> r[i] < r[j]
    decreases S
  {
    if S == {} then []
    else
      var m := Least(S);
      [m] + Ascending(S - {m})
  }
}
