/**
 * The two constraint kinds of the engine, in both of the repository's snapshots.
 *
 * The older snapshot (Source/Constraints.cs) asks a constraint
 * `SatisfiedByVariableValueInAssignment(variable, value, assignment)`; the later one
 * (Source/CSP/Constraints.cs) has only AllDifferent and asks
 * `IsSatisfiedByValue(value, assignment)`. An assignment is read here as the value of its
 * dictionary, a partial map from variable names to integers.
 */
module Constraints {
  import opened Wrappers

  type Variable = string

  /** The `ArgumentException` a DifferingPair raises for a variable outside its pair. */
  datatype ConstraintError = ArgumentException

  datatype Constraint =
    | AllDifferent(variables: set<Variable>)
    | DifferingPair(first: Variable, second: Variable)
  {
    /** The scope: the later snapshot's `Variables` collection, the pair's two names for a DifferingPair. */
    function Scope(): set<Variable> {
      match this
      case AllDifferent(vs) => vs
      case DifferingPair(f, s) => {f, s}
    }

    /** Is `v` in the constraint's scope (`Affects`, both snapshots). */
    predicate Affects(v: Variable): (r: bool)
      ensures r <==> v in Scope()
    {
      match this
      case AllDifferent(vs) => v in vs
      case DifferingPair(f, s) => f == v || s == v
    }

    /**
     * The member of the pair that is not `v`; `None` (the source's `null`) when `v` is
     * outside the pair. For a pair naming one variable twice, that variable is its own other.
     */
    function OtherVariable(v: Variable): (r: Option<Variable>)
      requires DifferingPair?
      ensures r.Some? <==> Affects(v)
      ensures r.Some? ==> Affects(r.value) && (r.value == v <==> first == second)
    {
      if v == first then Some(second)
      else if v == second then Some(first)
      else None
    }

    /**
     * The older check. A DifferingPair raises for a variable it does not affect; an
     * AllDifferent gathers the values of every assigned in-scope entry into a set and
     * accepts when the proposed value is not among them, never looking at `v`.
     */
    function SatisfiedByVariableValueInAssignment(v: Variable, p: int, a: map<Variable, int>)
      : (r: Result<bool, ConstraintError>)
      ensures r.Failure? <==> DifferingPair? && !Affects(v)
      ensures DifferingPair? && v == first ==> r == Success(second !in a || a[second] != p)
      ensures DifferingPair? && v == second ==> r == Success(first !in a || a[first] != p)
      ensures AllDifferent? ==>
        (r == Success(true) <==> forall k :: k in a && k in variables ==> a[k] != p)
    {
      match this
      case DifferingPair(_, _) =>
        if !Affects(v) then Failure(ArgumentException)
        else
          var other := OtherVariable(v).value;
          Success(other !in a || a[other] != p)
      case AllDifferent(vs) =>
        Success(p !in ExistingValues(vs, a))
    }

    /** The answer of the older check for a variable the constraint affects, which never raises. */
    predicate Approves(v: Variable, p: int, a: map<Variable, int>)
      requires Affects(v)
    {
      SatisfiedByVariableValueInAssignment(v, p, a).value
    }

    /** The later check, which exists only for AllDifferent. */
    predicate IsSatisfiedByValue(p: int, a: map<Variable, int>): (r: bool)
      requires AllDifferent?
      ensures r <==> p !in ExistingValues(variables, a)
    {
      forall v :: v in variables ==> v !in a || a[v] != p
    }
  }

  /** The set `existingValues` that the older AllDifferent check builds. */
  function ExistingValues(vs: set<Variable>, a: map<Variable, int>): set<int> {
    set k | k in a && k in vs :: a[k]
  }

  /** `new AllDifferentConstraint(params string[] variables)`: the arguments as a set. */
  function NewAllDifferent(args: seq<Variable>): (c: Constraint)
    ensures c.AllDifferent?
    ensures forall v :: c.Affects(v) <==> v in args
  {
    AllDifferent(set v | v in args)
  }

  /**
   * The loop of the older AllDifferent check: walk the assignment's entries in some order,
   * collect the values of those in scope, then test the proposed value.
   */
  method AllDifferentScan(vs: set<Variable>, p: int, a: map<Variable, int>) returns (b: bool)
    ensures b <==> forall k :: k in a && k in vs ==> a[k] != p
  {
    var existingValues: set<int> := {};
    var remaining := a.Keys;
    while remaining != {}
      invariant remaining <= a.Keys
      invariant forall k :: k in a && k !in remaining && k in vs ==> a[k] in existingValues
      invariant forall x :: x in existingValues ==> exists k :: k in a && k in vs && a[k] == x
      decreases remaining
    {
      var entry :| entry in remaining;
      if entry in vs {
        existingValues := existingValues + {a[entry]};
      }
      remaining := remaining - {entry};
    }
    b := p !in existingValues;
  }

  /** Constructor arguments that name the same variables give the same constraint. */
  lemma DuplicateArgumentsCollapse(args: seq<Variable>, args': seq<Variable>)
    requires forall v :: v in args <==> v in args'
    ensures NewAllDifferent(args) == NewAllDifferent(args')
  {
    var c, c' := NewAllDifferent(args), NewAllDifferent(args');
    assert c.variables == c'.variables by {
      forall v ensures v in c.variables <==> v in c'.variables {
        assert c.Affects(v) <==> c'.Affects(v);
      }
    }
  }

  /** `OtherVariable` swaps the two members of the pair, so applying it twice gives `v` back. */
  lemma OtherVariableInvolution(c: Constraint, v: Variable)
    requires c.DifferingPair? && c.Affects(v)
    ensures c.OtherVariable(c.OtherVariable(v).value) == Some(v)
  {
  }

  /** The older AllDifferent answer does not depend on the variable it is asked about. */
  lemma AllDifferentIgnoresVariable(vs: set<Variable>, v: Variable, w: Variable, p: int, a: map<Variable, int>)
    ensures AllDifferent(vs).SatisfiedByVariableValueInAssignment(v, p, a)
         == AllDifferent(vs).SatisfiedByVariableValueInAssignment(w, p, a)
  {
  }

  /** The two snapshots' AllDifferent checks agree on every assignment and value. */
  lemma SnapshotsAgree(vs: set<Variable>, v: Variable, p: int, a: map<Variable, int>)
    ensures AllDifferent(vs).SatisfiedByVariableValueInAssignment(v, p, a)
         == Success(AllDifferent(vs).IsSatisfiedByValue(p, a))
  {
    var c := AllDifferent(vs);
    if c.IsSatisfiedByValue(p, a) {
      assert forall k :: k in a && k in vs ==> a[k] != p;
    } else {
      var k :| k in vs && k in a && a[k] == p;
      assert p in ExistingValues(vs, a);
    }
  }

  /** An AllDifferent with an empty scope accepts every value. */
  lemma EmptyScopeSatisfied(p: int, a: map<Variable, int>)
    ensures AllDifferent({}).IsSatisfiedByValue(p, a)
  {
  }

  /** Writing or removing a variable outside the scope does not change the later check. */
  lemma OutOfScopeWriteIrrelevant(vs: set<Variable>, p: int, a: map<Variable, int>, x: Variable, y: int)
    requires x !in vs
    ensures AllDifferent(vs).IsSatisfiedByValue(p, a[x := y]) == AllDifferent(vs).IsSatisfiedByValue(p, a)
    ensures AllDifferent(vs).IsSatisfiedByValue(p, a - {x}) == AllDifferent(vs).IsSatisfiedByValue(p, a)
  {
  }

  /**
   * When the proposed variable is not yet assigned (the only case the solver asks about),
   * both kinds accept exactly when no other assigned variable in scope holds the value.
   */
  lemma ApprovesIffNoClash(c: Constraint, v: Variable, p: int, a: map<Variable, int>)
    requires c.Affects(v) && v !in a
    ensures c.Approves(v, p, a) <==> forall w :: w in a && c.Affects(w) ==> a[w] != p
  {
    match c
    case AllDifferent(vs) =>
    case DifferingPair(f, s) =>
      var other := c.OtherVariable(v).value;
      if c.Approves(v, p, a) {
        forall w | w in a && c.Affects(w) ensures a[w] != p {
          assert w != v;
          assert w == other;
        }
      } else {
        assert other in a && a[other] == p;
      }
  }
}
