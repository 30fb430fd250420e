/**
 * The Assignment (Source/Assignment.cs, Source/CSP/Assignment.cs): a dictionary from variable
 * to value that the solver writes and removes from in place, the CSP it was built for, and a
 * per-variable domain snapshot copied from that CSP at construction.
 *
 * The later snapshot's solver and heuristics call `Assign`, `Unassign`, `IsAssigned`,
 * `GetValue` and `GetDomain`, which that snapshot's Assignment does not define; they are
 * modelled as map update, key removal, key membership, lookup and snapshot lookup.
 */
module Assignments {
  import opened Constraints
  import opened CspBase

  /** No value occurs twice in `s`. */
  predicate NoDuplicates(s: seq<int>) {
    forall i, j :: 0 <= i < j < |s| ==> s[i] != s[j]
  }

  /**
   * `new HashSet<int>(domain)`: each element of `d` once. The CLR does not promise an
   * enumeration order for a hash set; the model keeps first occurrences in order.
   */
  function SetCopy(d: seq<int>): (r: seq<int>)
    ensures forall x :: x in r <==> x in d
    ensures NoDuplicates(r)
    ensures |r| <= |d|
  {
    if d == [] then []
    else
      var rest := SetCopy(d[..|d| - 1]);
      if d[|d| - 1] in rest then rest else rest + [d[|d| - 1]]
  }

  /** Every variable of `vars` is a key of `m`. */
  predicate AllAssigned(vars: seq<Variable>, m: map<Variable, int>) {
    forall v :: v in vars ==> v in m
  }

  class Assignment {
    /** The CSP the assignment was built for; get-only, so fixed after construction. */
    const csp: Csp
    /** The dictionary itself: a variable is assigned iff it is a key. */
    var values: map<Variable, int>
    /** `VariableDomains`: filled by the constructor, never written afterwards. */
    var variableDomains: map<Variable, seq<int>>

    ghost predicate Valid()
      reads this`variableDomains
    {
      && csp.Valid()
      && variableDomains.Keys == csp.varDomains.Keys
      && forall v :: v in variableDomains ==> variableDomains[v] == SetCopy(csp.varDomains[v])
    }

    /** `Assignment(CSP csp)`: no variable assigned; one set copy of each CSP domain. */
    constructor (csp: Csp)
      requires csp.Valid()
      ensures this.csp == csp && values == map[] && Valid()
    {
      this.csp := csp;
      values := map[];
      variableDomains := map[];
      new;
      var i := 0;
      while i < |csp.variables|
        invariant 0 <= i <= |csp.variables|
        invariant forall v :: v in variableDomains <==> v in csp.variables[..i]
        invariant forall v :: v in variableDomains ==> variableDomains[v] == SetCopy(csp.varDomains[v])
        invariant values == map[]
      {
        var variable := csp.variables[i];
        variableDomains := variableDomains[variable := SetCopy(csp.varDomains[variable])];
        i := i + 1;
      }
      assert csp.variables[..i] == csp.variables;
    }

    /** `IsVariableAssigned` (both snapshots) and `IsAssigned` (later solver): key membership. */
    predicate IsVariableAssigned(v: Variable)
      reads this`values
    {
      v in values
    }

    /** `IsComplete` of the later snapshot: every key of the CSP's domain map is assigned. */
    predicate IsComplete(): (r: bool)
      reads this`values
      ensures csp.Valid() ==> (r <==> AllAssigned(csp.variables, values))
    {
      forall v :: v in csp.varDomains ==> IsVariableAssigned(v)
    }

    /** `IsComplete` of the older snapshot: scan the CSP's variables, stop at the first unassigned one. */
    method ScanIsComplete() returns (b: bool)
      requires csp.Valid()
      ensures b <==> AllAssigned(csp.variables, values)
      ensures b <==> IsComplete()
    {
      var i := 0;
      while i < |csp.variables|
        invariant 0 <= i <= |csp.variables|
        invariant forall k :: 0 <= k < i ==> csp.variables[k] in values
      {
        if !IsVariableAssigned(csp.variables[i]) {
          return false;
        }
        i := i + 1;
      }
      return true;
    }

    /** `GetDomain`: the snapshot taken at construction, a set copy of the CSP's domain. */
    function GetDomain(v: Variable): (r: seq<int>)
      reads this`variableDomains
      requires Valid() && v in csp.varDomains
      ensures forall x :: x in r <==> x in csp.varDomains[v]
      ensures NoDuplicates(r)
      ensures |r| <= |csp.varDomains[v]|
    {
      variableDomains[v]
    }

    /** `Assign` (later solver) and `assignment[variable] = value` (older solver): overwrite. */
    method Assign(v: Variable, x: int)
      modifies this`values
      ensures values == old(values)[v := x]
      ensures IsVariableAssigned(v) && values[v] == x
    {
      values := values[v := x];
    }

    /** `Unassign` (later solver) and `assignment.Remove(variable)` (older solver); no-op when absent. */
    method Unassign(v: Variable)
      modifies this`values
      ensures values == old(values) - {v}
      ensures !IsVariableAssigned(v)
    {
      values := values - {v};
    }
  }

  /** `IsComplete` ignores keys that are not CSP variables. */
  lemma CompleteIgnoresExtraKeys(vars: seq<Variable>, m: map<Variable, int>, x: Variable, y: int)
    requires x !in vars
    ensures AllAssigned(vars, m[x := y]) <==> AllAssigned(vars, m)
    ensures AllAssigned(vars, m - {x}) <==> AllAssigned(vars, m)
  {
  }

  /** A CSP with no variables is complete under every assignment. */
  lemma NoVariablesComplete(m: map<Variable, int>)
    ensures AllAssigned([], m)
  {
  }

  /** Removing a variable of the CSP makes the assignment incomplete. */
  lemma UnassignBreaksComplete(vars: seq<Variable>, m: map<Variable, int>, x: Variable)
    requires x in vars
    ensures !AllAssigned(vars, m - {x})
  {
  }
}
