/**
 * The CSP record (Source/Base.cs, Source/CSP/Base.cs): the variable-to-domain dictionary and
 * the constraint list, stored as given, plus the consistency check of the older snapshot.
 *
 * A C# dictionary enumerates its keys in an order the CLR does not promise; the model makes
 * that order explicit as `variables`, which lists every key of `varDomains` exactly once.
 * Domains keep the order and duplicates they were supplied with (`ICollection<int>`).
 */
module CspBase {
  import opened Wrappers
  import opened Constraints

  datatype Csp = Csp(variables: seq<Variable>, varDomains: map<Variable, seq<int>>, constraints: seq<Constraint>)
  {
    /** `variables` is an enumeration of the dictionary's keys: each key once, nothing else. */
    ghost predicate Valid() {
      && (forall i, j :: 0 <= i < j < |variables| ==> variables[i] != variables[j])
      && (forall v :: v in variables <==> v in varDomains)
    }
  }

  /** Every constraint that affects `v` approves the value `p` for it in `a`. */
  ghost predicate AllApprove(csp: Csp, a: map<Variable, int>, v: Variable, p: int) {
    forall i :: 0 <= i < |csp.constraints| && csp.constraints[i].Affects(v) ==> csp.constraints[i].Approves(v, p, a)
  }

  /**
   * `IsVariableValueConsistent`: walk the constraint list in order, ask each constraint that
   * affects `v`, and answer false at the first one that rejects the value.
   */
  function IsVariableValueConsistent(csp: Csp, a: map<Variable, int>, v: Variable, p: int): (r: bool)
    ensures r <==> AllApprove(csp, a, v, p)
  {
    FirstRejection(csp.constraints, a, v, p).None?
  }

  /**
   * The loop of `IsVariableValueConsistent`: the position of the first constraint in list
   * order that affects `v` and rejects `p`, if any. A constraint that does not affect `v` is
   * never asked, so a DifferingPair's out-of-scope error cannot arise.
   */
  function FirstRejection(cs: seq<Constraint>, a: map<Variable, int>, v: Variable, p: int): (r: Option<nat>)
    ensures r.None? <==> forall i :: 0 <= i < |cs| && cs[i].Affects(v) ==> cs[i].Approves(v, p, a)
    ensures r.Some? ==> r.value < |cs| && cs[r.value].Affects(v) && !cs[r.value].Approves(v, p, a)
    ensures r.Some? ==> forall i :: 0 <= i < r.value && cs[i].Affects(v) ==> cs[i].Approves(v, p, a)
  {
    if cs == [] then None
    else if cs[0].Affects(v) && !cs[0].Approves(v, p, a) then Some(0)
    else
      match FirstRejection(cs[1..], a, v, p)
      case None => None
      case Some(k) => Some(k + 1)
  }

  /**
   * For an unassigned variable, the check holds exactly when no assigned variable that shares
   * a constraint with `v` already holds `p`.
   */
  lemma ConsistentIffNoClash(csp: Csp, a: map<Variable, int>, v: Variable, p: int)
    requires v !in a
    ensures IsVariableValueConsistent(csp, a, v, p) <==>
      forall i, w ::
        (0 <= i < |csp.constraints| && csp.constraints[i].Affects(v) &&
         csp.constraints[i].Affects(w) && w in a) ==> a[w] != p
  {
    var cs := csp.constraints;
    forall i | 0 <= i < |cs| && cs[i].Affects(v)
      ensures cs[i].Approves(v, p, a) <==> forall w :: w in a && cs[i].Affects(w) ==> a[w] != p
    {
      ApprovesIffNoClash(cs[i], v, p, a);
    }
  }

  /** With no constraints every value is consistent. */
  lemma NoConstraintsAlwaysConsistent(vars: seq<Variable>, doms: map<Variable, seq<int>>, a: map<Variable, int>, v: Variable, p: int)
    ensures IsVariableValueConsistent(Csp(vars, doms, []), a, v, p)
  {
  }

  /**
   * No two distinct variables that share a constraint hold the same value in `m`, except
   * possibly pairs that both lie in `fixed` (entries the caller supplied, such as clues).
   */
  ghost predicate NoConflictOutside(cs: seq<Constraint>, m: map<Variable, int>, fixed: set<Variable>) {
    forall i, x, y ::
      (0 <= i < |cs| && cs[i].Affects(x) && cs[i].Affects(y) && x != y &&
       x in m && y in m && x !in fixed) ==> m[x] != m[y]
  }

  /** Every constraint holds in `m` among the variables it assigns. */
  ghost predicate SatisfiesAll(cs: seq<Constraint>, m: map<Variable, int>) {
    NoConflictOutside(cs, m, {})
  }
}
