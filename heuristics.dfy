/**
 * The value-ordering and variable-selection heuristics (Source/Heuristics.cs,
 * Source/CSP/Heuristics.cs). Both snapshots query the CSP's variables in the domain
 * dictionary's key order, which the model takes from `Csp.variables`.
 */
module Heuristics {
  import opened Wrappers
  import opened Constraints
  import opened CspBase
  import opened Assignments

  /**
   * `TrivialOrderValues`: the variable's domain snapshot, each domain value once and nothing
   * else. It reads only the snapshot, never the current values, so nothing is filtered out.
   */
  function TrivialOrderValues(a: Assignment, csp: Csp, v: Variable): (r: seq<int>)
    reads a`variableDomains
    requires a.Valid() && v in a.csp.varDomains
    ensures forall x :: x in r <==> x in a.csp.varDomains[v]
    ensures NoDuplicates(r)
    ensures |r| <= |a.csp.varDomains[v]|
  {
    a.GetDomain(v)
  }

  /** The first variable of `vars` that is not a key of `m`, or `None` (`FirstOrDefault`'s null). */
  function FirstUnassigned(vars: seq<Variable>, m: map<Variable, int>): (r: Option<Variable>)
    ensures r.None? <==> AllAssigned(vars, m)
    ensures r.Some? ==> r.value in vars && r.value !in m
    ensures r.Some? ==> exists k :: 0 <= k < |vars| && vars[k] == r.value && AllAssigned(vars[..k], m)
  {
    if vars == [] then None
    else if vars[0] !in m then
      assert vars[..0] == [];
      Some(vars[0])
    else
      var r := FirstUnassigned(vars[1..], m);
      if r.Some? then
        var k :| 0 <= k < |vars[1..]| && vars[1..][k] == r.value && AllAssigned(vars[1..][..k], m);
        assert vars[..k + 1] == [vars[0]] + vars[1..][..k];
        r
      else
        assert vars == [vars[0]] + vars[1..];
        r
  }

  /**
   * `ChooseFirstVariable`: the first CSP variable in key order that is unassigned; none
   * exactly when the assignment is complete; every variable before it is assigned.
   */
  function ChooseFirstVariable(a: Assignment, csp: Csp): (r: Option<Variable>)
    reads a`values
    ensures r.None? <==> AllAssigned(csp.variables, a.values)
    ensures r.Some? ==> r.value in csp.variables && !a.IsVariableAssigned(r.value)
    ensures r.Some? ==> exists k :: 0 <= k < |csp.variables| && csp.variables[k] == r.value &&
                                   AllAssigned(csp.variables[..k], a.values)
  {
    FirstUnassigned(csp.variables, a.values)
  }

  /**
   * `ChooseRandomVariable`: some unassigned CSP variable, or none when every one is assigned.
   * The source shuffles with `Guid.NewGuid()`; the model leaves the choice open.
   */
  method ChooseRandomVariable(a: Assignment, csp: Csp) returns (r: Option<Variable>)
    ensures r.None? <==> AllAssigned(csp.variables, a.values)
    ensures r.Some? ==> r.value in csp.variables && !a.IsVariableAssigned(r.value)
  {
    var unassigned := set v | v in csp.variables && !a.IsVariableAssigned(v);
    if unassigned == {} {
      forall v | v in csp.variables ensures v in a.values {
        assert v !in unassigned;
      }
      r := None;
    } else {
      var v :| v in unassigned;
      r := Some(v);
    }
  }
}
