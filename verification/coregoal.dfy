/** The variable and constant bookkeeping of `Goal` (uel.core): the atoms of
    the atom manager by index, the index sets `variables`, `constants` and
    `eatoms`, the variable flags of the concept names, and the goal
    equations. */
module CoreGoals {
  import opened Wrappers

  /** A flat atom: a concept name, or an existential restriction whose
      filler is the atom with index `child`. */
  datatype Atom = Name(name: string) | Existential(role: string, child: nat)

  datatype Equation = Equation(left: nat, right: set<nat>, primitive: bool)

  datatype GoalError = IllegalArgument | IllegalState

  /** `variableFlag` and `userFlag` hold the indices of the concept names whose
      `isVariable` and `isUserVariable` flags are set. */
  datatype Goal = Goal(atoms: seq<Atom>, variables: set<nat>, constants: set<nat>, eatoms: set<nat>,
                       variableFlag: set<nat>, userFlag: set<nat>, equations: seq<Equation>)

  const UndefSuffix: string := "_UNDEF"

  /** The atom manager is an indexed set: no atom is stored twice. */
  predicate Unique(atoms: seq<Atom>) {
    forall i, j :: 0 <= i < j < |atoms| ==> atoms[i] != atoms[j]
  }

  predicate Indexed(ids: set<nat>, atoms: seq<Atom>) {
    forall i :: i in ids ==> i < |atoms|
  }

  /** Every index the goal records names an atom of the manager. */
  predicate Valid(g: Goal) {
    && Unique(g.atoms)
    && Indexed(g.variables, g.atoms) && Indexed(g.constants, g.atoms) && Indexed(g.eatoms, g.atoms)
    && Indexed(g.variableFlag, g.atoms) && Indexed(g.userFlag, g.atoms)
    && forall k :: 0 <= k < |g.equations| ==>
         g.equations[k].left < |g.atoms| && Indexed(g.equations[k].right, g.atoms)
  }

  // ---------------------------------------------------------------------------
  // The atom manager

  /** The index of `a`: its first occurrence. */
  function IndexOf(atoms: seq<Atom>, a: Atom): (k: nat)
    requires a in atoms
    ensures k < |atoms| && atoms[k] == a && a !in atoms[..k]
  {
    if atoms[0] == a then 0
    else
      var k := IndexOf(atoms[1..], a);
      assert atoms[..k + 1] == [atoms[0]] + atoms[1..][..k];
      k + 1
  }

  /** In an indexed set an atom's index is the one position holding it. */
  lemma IndexOfUnique(atoms: seq<Atom>, i: nat)
    requires Unique(atoms) && i < |atoms|
    ensures IndexOf(atoms, atoms[i]) == i
  {
  }

  /** `addAndGetIndex`: the index of `a`, appended first when it is new. */
  function Intern(atoms: seq<Atom>, a: Atom): (r: (seq<Atom>, nat))
    ensures atoms <= r.0 && |r.0| <= |atoms| + 1
    ensures r.1 < |r.0| && r.0[r.1] == a
    ensures a in atoms <==> r.0 == atoms
  {
    if a in atoms then (atoms, IndexOf(atoms, a)) else (atoms + [a], |atoms|)
  }

  /** Interning keeps the set indexed, and interning again finds the same
      index without growing it. */
  lemma InternKeepsUnique(atoms: seq<Atom>, a: Atom)
    requires Unique(atoms)
    ensures Unique(Intern(atoms, a).0)
    ensures Intern(Intern(atoms, a).0, a) == Intern(atoms, a)
  {
    var (grown, k) := Intern(atoms, a);
    if a !in atoms {
      forall i, j | 0 <= i < j < |grown|
        ensures grown[i] != grown[j]
      {
        if j == |atoms| {
          assert grown[i] == atoms[i];
        }
      }
    }
    IndexOfUnique(grown, k);
  }

  // ---------------------------------------------------------------------------
  // makeConstant and makeVariable

  /** `makeConstant` (lines 267-281): a variable among the concept names
      becomes a constant and loses both variable flags. */
  function MakeConstant(g: Goal, id: nat): (r: Result<Goal, GoalError>)
    requires id < |g.atoms|
    ensures r.Err? <==> !g.atoms[id].Name?
    ensures r.Err? ==> r.error == IllegalArgument
    ensures r.Ok? ==> r.value.atoms == g.atoms && r.value.eatoms == g.eatoms && r.value.equations == g.equations
    ensures r.Ok? ==> id !in r.value.variables && r.value.variables - {id} == g.variables - {id}
    ensures r.Ok? && id in g.variables ==>
      && r.value.constants == g.constants + {id}
      && r.value.variableFlag == g.variableFlag - {id} && r.value.userFlag == g.userFlag - {id}
    ensures r.Ok? && id !in g.variables ==> r.value == g
  {
    if !g.atoms[id].Name? then Err(IllegalArgument)
    else if id in g.variables then
      Ok(g.(variables := g.variables - {id}, constants := g.constants + {id},
            variableFlag := g.variableFlag - {id}, userFlag := g.userFlag - {id}))
    else Ok(g)
  }

  /** `makeVariable` (lines 283-297): a constant among the concept names
      becomes a variable and gets both variable flags. */
  function MakeVariable(g: Goal, id: nat): (r: Result<Goal, GoalError>)
    requires id < |g.atoms|
    ensures r.Err? <==> !g.atoms[id].Name?
    ensures r.Err? ==> r.error == IllegalArgument
    ensures r.Ok? ==> r.value.atoms == g.atoms && r.value.eatoms == g.eatoms && r.value.equations == g.equations
    ensures r.Ok? ==> id !in r.value.constants && r.value.constants - {id} == g.constants - {id}
    ensures r.Ok? && id in g.constants ==>
      && r.value.variables == g.variables + {id}
      && r.value.variableFlag == g.variableFlag + {id} && r.value.userFlag == g.userFlag + {id}
    ensures r.Ok? && id !in g.constants ==> r.value == g
  {
    if !g.atoms[id].Name? then Err(IllegalArgument)
    else if id in g.constants then
      Ok(g.(constants := g.constants - {id}, variables := g.variables + {id},
            variableFlag := g.variableFlag + {id}, userFlag := g.userFlag + {id}))
    else Ok(g)
  }

  /** Both moves keep the variables and the constants apart. */
  lemma MakeKeepsDisjoint(g: Goal, id: nat)
    requires id < |g.atoms| && g.variables !! g.constants
    ensures MakeConstant(g, id).Ok? ==> MakeConstant(g, id).value.variables !! MakeConstant(g, id).value.constants
    ensures MakeVariable(g, id).Ok? ==> MakeVariable(g, id).value.variables !! MakeVariable(g, id).value.constants
  {
  }

  /** Turning a variable into a constant and back restores both sets, and
      restores the whole goal when both of its flags were set. */
  lemma MakeRoundTrip(g: Goal, id: nat)
    requires id < |g.atoms| && g.atoms[id].Name? && id in g.variables && g.variables !! g.constants
    ensures MakeConstant(g, id).Ok?
    ensures MakeVariable(MakeConstant(g, id).value, id).Ok?
    ensures
      var h := MakeVariable(MakeConstant(g, id).value, id).value;
      && h.variables == g.variables && h.constants == g.constants
      && (id in g.variableFlag && id in g.userFlag ==> h == g)
  {
  }

  // ---------------------------------------------------------------------------
  // The classification in initialize

  /** The variables after the first loop: those already recorded, and every
      concept name whose variable flag is set. */
  function FlaggedVariables(g: Goal): (vs: set<nat>)
    ensures g.variables <= vs
    ensures forall i :: 0 <= i < |g.atoms| && g.atoms[i].Name? && i in g.variableFlag ==> i in vs
    ensures forall i :: i in vs - g.variables ==> i < |g.atoms| && g.atoms[i].Name? && i in g.variableFlag
  {
    g.variables + set i: nat | i < |g.atoms| && g.atoms[i].Name? && i in g.variableFlag
  }

  /** What the three loops of `initialize` compute: the variables must all be
      concept names; every non-variable that is not an existential
      restriction becomes a constant, and every existential restriction
      joins `eatoms`. */
  function Classified(g: Goal): Result<Goal, GoalError>
    requires Indexed(g.variables, g.atoms)
  {
    var vs := FlaggedVariables(g);
    if exists v :: v in vs && !g.atoms[v].Name? then Err(IllegalState)
    else
      Ok(g.(variables := vs, variableFlag := g.variableFlag + vs,
            constants := g.constants + (set i: nat | i < |g.atoms| && i !in vs && !g.atoms[i].Existential?),
            eatoms := g.eatoms + (set i: nat | i < |g.atoms| && g.atoms[i].Existential?)))
  }

  /** The first loop (lines 239-244): every concept name whose variable flag
      is set joins the variables. */
  method CollectVariables(g: Goal) returns (vs: set<nat>)
    ensures vs == FlaggedVariables(g)
  {
    vs := g.variables;
    for i := 0 to |g.atoms|
      invariant vs == g.variables + set j: nat | j < i && g.atoms[j].Name? && j in g.variableFlag
    {
      if g.atoms[i].Name? && i in g.variableFlag {
        vs := vs + {i};
      }
    }
  }

  /** The second loop (lines 246-252), visiting the variables in ascending
      order, which changes nothing in the outcome: a variable that is not a
      concept name is an error, the others get their variable flag. */
  method FlagVariables(atoms: seq<Atom>, vs: set<nat>, flags: set<nat>) returns (r: Option<set<nat>>)
    requires Indexed(vs, atoms)
    ensures r.None? <==> exists v :: v in vs && !atoms[v].Name?
    ensures r.Some? ==> r.value == flags + vs
  {
    var flagged := flags;
    for i := 0 to |atoms|
      invariant forall j :: j in vs && j < i ==> atoms[j].Name?
      invariant flagged == flags + set j: nat | j < i && j in vs
    {
      if i in vs {
        if !atoms[i].Name? {
          return None;
        }
        flagged := flagged + {i};
      }
    }
    return Some(flagged);
  }

  /** The third loop (lines 254-264). Every index is looked up again through
      `addAndGetIndex`, which in an indexed set gives the index back. */
  method SortAtoms(g: Goal, vs: set<nat>) returns (constants: set<nat>, eatoms: set<nat>)
    requires Unique(g.atoms)
    ensures constants == g.constants + set j: nat | j < |g.atoms| && j !in vs && !g.atoms[j].Existential?
    ensures eatoms == g.eatoms + set j: nat | j < |g.atoms| && g.atoms[j].Existential?
  {
    constants, eatoms := g.constants, g.eatoms;
    for i := 0 to |g.atoms|
      invariant constants == g.constants + set j: nat | j < i && j !in vs && !g.atoms[j].Existential?
      invariant eatoms == g.eatoms + set j: nat | j < i && g.atoms[j].Existential?
    {
      var a := g.atoms[i];
      var id := IndexOf(g.atoms, a);
      IndexOfUnique(g.atoms, i);
      if id !in vs && !a.Existential? {
        constants := constants + {id};
      } else if a.Existential? {
        eatoms := eatoms + {id};
      }
    }
  }

  /** Lines 239-264 of `initialize`: the three loops in turn. */
  method Classify(g: Goal) returns (r: Result<Goal, GoalError>)
    requires Unique(g.atoms) && Indexed(g.variables, g.atoms)
    ensures r == Classified(g)
  {
    var vs := CollectVariables(g);
    var flags := FlagVariables(g.atoms, vs, g.variableFlag);
    if flags.None? {
      return Err(IllegalState);
    }
    var constants, eatoms := SortAtoms(g, vs);
    r := Ok(g.(variables := vs, variableFlag := flags.value, constants := constants, eatoms := eatoms));
  }

  /** What the goal holds before the classification: constants that are
      concept names, neither variables nor flagged as such, and existential
      restrictions in `eatoms`. */
  predicate Sorted(g: Goal) {
    && Indexed(g.variables, g.atoms) && Indexed(g.constants, g.atoms) && Indexed(g.eatoms, g.atoms)
    && (forall i :: i in g.constants ==> g.atoms[i].Name? && i !in g.variables && i !in g.variableFlag)
    && (forall i :: i in g.eatoms ==> g.atoms[i].Existential?)
  }

  /** The classification fails exactly when some recorded variable is not a
      concept name; otherwise every atom lands in exactly one of the three
      sets, the variables are flagged concept names and `eatoms` holds exactly
      the existential restrictions. */
  lemma ClassifiedPartitions(g: Goal)
    requires Sorted(g)
    ensures Classified(g).Err? <==> exists v :: v in g.variables && !g.atoms[v].Name?
    ensures Classified(g).Ok? ==>
      var c := Classified(g).value;
      && (forall i :: 0 <= i < |g.atoms| ==> (i in c.variables) || (i in c.constants) || (i in c.eatoms))
      && c.variables !! c.constants && c.variables !! c.eatoms && c.constants !! c.eatoms
      && (forall i :: i in c.variables ==> g.atoms[i].Name? && i in c.variableFlag)
      && (forall i :: 0 <= i < |g.atoms| ==> (i in c.eatoms <==> g.atoms[i].Existential?))
  {
    var vs := FlaggedVariables(g);
    if exists v :: v in vs && !g.atoms[v].Name? {
      var v :| v in vs && !g.atoms[v].Name?;
      assert v in g.variables;
    }
  }

  // ---------------------------------------------------------------------------
  // addFlatten

  /** `addFlatten` (lines 84-135) without the exploration of the ontology.
      `defined` is the outcome of the check at line 95, which runs after the
      left side was already added to the variables. A primitive equation is
      rewritten into a full one whose right side also holds the concept name
      of the left side suffixed with `_UNDEF`, a constant. */
  function AddFlatten(g: Goal, e: Equation, defined: bool): (r: Result<Goal, GoalError>)
    requires e.left < |g.atoms|
    ensures r.Err? <==> !g.atoms[e.left].Name?
    ensures r.Err? ==> r.error == IllegalState
    ensures r.Ok? ==>
      && r.value.variables == g.variables + {e.left} && r.value.eatoms == g.eatoms
      && r.value.variableFlag == g.variableFlag + {e.left} && r.value.userFlag == g.userFlag - {e.left}
      && g.atoms <= r.value.atoms && |r.value.atoms| <= |g.atoms| + 1
    ensures r.Ok? && (defined || !e.primitive) ==>
      && r.value.atoms == g.atoms && r.value.constants == g.constants
      && r.value.equations == g.equations + (if defined then [] else [e])
    ensures r.Ok? && !defined && e.primitive ==> Undefined(g, e, r.value)
  {
    if !g.atoms[e.left].Name? then Err(IllegalState)
    else
      var g1 := g.(variableFlag := g.variableFlag + {e.left}, userFlag := g.userFlag - {e.left},
                   variables := g.variables + {e.left});
      if defined then Ok(g1)
      else if !e.primitive then Ok(g1.(equations := g1.equations + [e]))
      else
        var (atoms, id) := Intern(g1.atoms, Name(g.atoms[e.left].name + UndefSuffix));
        Ok(g1.(atoms := atoms, constants := g1.constants + {id},
               equations := g1.equations + [Equation(e.left, e.right + {id}, false)]))
  }

  /** After a primitive equation: one new equation, full, with the old right
      side and the `_UNDEF` constant of its left side. */
  predicate Undefined(g: Goal, e: Equation, h: Goal)
    requires e.left < |g.atoms| && g.atoms[e.left].Name?
  {
    && |h.equations| == |g.equations| + 1 && h.equations[..|g.equations|] == g.equations
    && exists id :: 0 <= id < |h.atoms| && h.atoms[id] == Name(g.atoms[e.left].name + UndefSuffix)
         && h.constants == g.constants + {id}
         && h.equations[|g.equations|] == Equation(e.left, e.right + {id}, false)
  }

  /** `addFlatten` keeps the goal's indices inside the atom manager, and the
      `_UNDEF` constant of a concept name is interned once: adding a second
      primitive equation for the same left side reuses it. */
  lemma AddFlattenKeepsValid(g: Goal, e: Equation, defined: bool)
    requires Valid(g) && e.left < |g.atoms| && Indexed(e.right, g.atoms)
    ensures AddFlatten(g, e, defined).Ok? ==> Valid(AddFlatten(g, e, defined).value)
    ensures AddFlatten(g, e, defined).Ok? && !defined && e.primitive ==>
      var h := AddFlatten(g, e, defined).value;
      AddFlatten(h, e, false).Ok? && AddFlatten(h, e, false).value.atoms == h.atoms
  {
    if g.atoms[e.left].Name? && !defined && e.primitive {
      var u := Name(g.atoms[e.left].name + UndefSuffix);
      InternKeepsUnique(g.atoms, u);
      var h := AddFlatten(g, e, defined).value;
      assert h.atoms == Intern(g.atoms, u).0;
      assert h.atoms[e.left] == g.atoms[e.left];
      assert u in h.atoms;
    }
  }
}
