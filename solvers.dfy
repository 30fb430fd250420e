/**
 * The recursive backtracking solver (Source/Solvers.cs, Source/CSP/Solvers.cs).
 *
 * The source returns the assignment object on success and `null` on failure, and throws
 * once its step counter passes 10,000,000; here the three outcomes are `Solved` (the
 * assignment, mutated in place, is the answer), `NoSolution` and `Timeout`.
 */
module Solvers {
  import opened Wrappers
  import opened Constraints
  import opened CspBase
  import opened Assignments
  import opened Heuristics

  datatype SolveResult = Solved | NoSolution | Timeout

  /** The variable-selection heuristic the solver was built with. */
  datatype SelectVariable = ChooseFirst | ChooseRandom

  /** `TIMEOUT_NUMBER_OF_STEPS` / `TimeoutNumberOfSteps`. */
  const TimeoutNumberOfSteps: nat := 10000000

  function Max(a: int, b: int): int {
    if a < b then b else a
  }

  /** The size of the largest domain among `vars`: how many values one step of the search can try. */
  function DomainWidth(vars: seq<Variable>, doms: map<Variable, seq<int>>): (w: nat)
    ensures forall v :: v in vars && v in doms ==> |doms[v]| <= w
  {
    if vars == [] then 0
    else
      var here := if vars[0] in doms then |doms[vars[0]]| else 0;
      var rest := DomainWidth(vars[1..], doms);
      assert forall v :: v in vars ==> v == vars[0] || v in vars[1..];
      if here < rest then rest else here
  }

  /** The branching factor of a search over `csp`. */
  function Branching(csp: Csp): nat {
    DomainWidth(csp.variables, csp.varDomains)
  }

  /**
   * How many calls a search may make with `n` variables left to assign and at most `d`
   * values each: `1 + d + d^2 + ... + d^n`, one call here and at most `d` searches below.
   */
  function SearchBound(n: nat, d: nat): (s: nat)
    ensures s >= 1
  {
    if n == 0 then 1 else 1 + Times(d, SearchBound(n - 1, d))
  }

  /** `k` searches of at most `s` calls each: `k * s`, written as repeated addition. */
  function Times(k: nat, s: nat): nat {
    if k == 0 then 0 else Times(k - 1, s) + s
  }

  /** The bound on the calls a search from `m` makes. */
  function StepsFrom(csp: Csp, m: map<Variable, int>): nat {
    SearchBound(CountUnassigned(csp.variables, m), Branching(csp))
  }

  /** The bound on the calls each search one level below `m` makes. */
  function StepsBelow(csp: Csp, m: map<Variable, int>): nat {
    var n := CountUnassigned(csp.variables, m);
    if n == 0 then 0 else SearchBound(n - 1, Branching(csp))
  }

  /** One call, then at most `Branching(csp)` searches one level below. */
  lemma StepsUnfold(csp: Csp, m: map<Variable, int>)
    requires !AllAssigned(csp.variables, m)
    ensures StepsFrom(csp, m) == 1 + Times(Branching(csp), StepsBelow(csp, m))
  {
    CountZeroIffAllAssigned(csp.variables, m);
  }

  /** Assigning an unassigned variable moves the search one level down. */
  lemma StepsAfterAssign(csp: Csp, m: map<Variable, int>, v: Variable, x: int)
    requires forall i, j :: 0 <= i < j < |csp.variables| ==> csp.variables[i] != csp.variables[j]
    requires v in csp.variables && v !in m
    ensures StepsFrom(csp, m[v := x]) == StepsBelow(csp, m)
  {
    AssignDecreasesCount(csp.variables, m, v, x);
  }

  /** Fewer searches take no more calls. */
  lemma {:induction false} TimesMonotone(k: nat, d: nat, s: nat)
    requires k <= d
    ensures Times(k, s) <= Times(d, s)
    decreases d
  {
    if k < d {
      TimesMonotone(k, d - 1, s);
    }
  }

  /** How many of `vars` are not keys of `m`: the measure that bounds the recursion depth. */
  function CountUnassigned(vars: seq<Variable>, m: map<Variable, int>): (n: nat)
    ensures n <= |vars|
  {
    if vars == [] then 0
    else (if vars[0] in m then 0 else 1) + CountUnassigned(vars[1..], m)
  }

  /** The count is zero exactly when every variable of `vars` is a key of `m`. */
  lemma {:induction false} CountZeroIffAllAssigned(vars: seq<Variable>, m: map<Variable, int>)
    ensures CountUnassigned(vars, m) == 0 <==> AllAssigned(vars, m)
  {
    if vars != [] {
      CountZeroIffAllAssigned(vars[1..], m);
      assert forall v :: v in vars ==> v == vars[0] || v in vars[1..];
    }
  }

  /** Writing a variable outside `vars` leaves the count alone. */
  lemma {:induction false} CountIgnoresOthers(vars: seq<Variable>, m: map<Variable, int>, v: Variable, x: int)
    requires v !in vars
    ensures CountUnassigned(vars, m[v := x]) == CountUnassigned(vars, m)
  {
    if vars != [] {
      CountIgnoresOthers(vars[1..], m, v, x);
    }
  }

  /** Assigning one unassigned variable lowers the count by exactly one. */
  lemma {:induction false} AssignDecreasesCount(vars: seq<Variable>, m: map<Variable, int>, v: Variable, x: int)
    requires forall i, j :: 0 <= i < j < |vars| ==> vars[i] != vars[j]
    requires v in vars && v !in m
    ensures CountUnassigned(vars, m[v := x]) == CountUnassigned(vars, m) - 1
  {
    if vars[0] == v {
      assert v !in vars[1..] by {
        forall k | 0 <= k < |vars[1..]| ensures vars[1..][k] != v {
          assert vars[1..][k] == vars[k + 1];
        }
      }
      CountIgnoresOthers(vars[1..], m, v, x);
    } else {
      assert v in vars[1..] by {
        var k :| 0 <= k < |vars| && vars[k] == v;
        assert vars[1..][k - 1] == v;
      }
      AssignDecreasesCount(vars[1..], m, v, x);
    }
  }

  /**
   * `m` is what the solver can make of `m0`: every entry of `m0` kept, every new key a CSP
   * variable holding a value of its domain, and no new entry equal to another variable it
   * shares a constraint with (what the consistency check before each write guarantees).
   */
  ghost predicate SoundExtension(csp: Csp, m0: map<Variable, int>, m: map<Variable, int>) {
    && (forall k {:trigger k in m0} :: k in m0 ==> k in m && m[k] == m0[k])
    && (forall k {:trigger k in m} :: k in m && k !in m0 ==> k in csp.varDomains && m[k] in csp.varDomains[k])
    && NoConflictOutside(csp.constraints, m, m0.Keys)
  }

  /** A complete sound extension: an answer the search is looking for. */
  ghost predicate IsSolution(csp: Csp, m0: map<Variable, int>, m: map<Variable, int>) {
    SoundExtension(csp, m0, m) && AllAssigned(csp.variables, m)
  }

  /** The map itself is a sound extension of itself. */
  lemma SoundExtensionReflexive(csp: Csp, m: map<Variable, int>)
    ensures SoundExtension(csp, m, m)
  {
  }

  /** Removing a key that was just added to a map without it gives the map back. */
  lemma UndoWrite(m: map<Variable, int>, v: Variable, p: int)
    requires v !in m
    ensures m[v := p] - {v} == m
  {
  }

  /** A consistent write followed by a sound extension is a sound extension of the map before the write. */
  lemma SoundStep(csp: Csp, m: map<Variable, int>, v: Variable, p: int, f: map<Variable, int>)
    requires v !in m && v in csp.varDomains && p in csp.varDomains[v]
    requires IsVariableValueConsistent(csp, m, v, p)
    requires SoundExtension(csp, m[v := p], f)
    ensures SoundExtension(csp, m, f)
  {
    var cs := csp.constraints;
    ConsistentIffNoClash(csp, m, v, p);
    forall k | k in m ensures k in f && f[k] == m[k] {
      assert k in m[v := p];
    }
    forall i, x, y |
      0 <= i < |cs| && cs[i].Affects(x) && cs[i].Affects(y) && x != y && x in f && y in f && x !in m
      ensures f[x] != f[y]
    {
      if x == v && y in m {
        assert f[y] == m[y] && f[x] == p;
      } else if x == v {
        assert y !in m[v := p];
      } else {
        assert x !in m[v := p];
      }
    }
  }

  /** Every solution extending `m` gives an unassigned CSP variable a domain value the check accepts. */
  lemma SolutionApproves(csp: Csp, m: map<Variable, int>, v: Variable, e: map<Variable, int>)
    requires IsSolution(csp, m, e) && v in csp.variables && v !in m
    ensures v in e && v in csp.varDomains && e[v] in csp.varDomains[v]
    ensures IsVariableValueConsistent(csp, m, v, e[v])
  {
    var cs := csp.constraints;
    ConsistentIffNoClash(csp, m, v, e[v]);
    forall i, w | 0 <= i < |cs| && cs[i].Affects(v) && cs[i].Affects(w) && w in m
      ensures m[w] != e[v]
    {
      assert w != v && e[w] == m[w];
    }
  }

  /** A solution extending `m` that gives `v` the value `p` also extends `m` with `v := p`. */
  lemma SolutionDescends(csp: Csp, m: map<Variable, int>, v: Variable, p: int, e: map<Variable, int>)
    requires IsSolution(csp, m, e) && v in csp.variables && v !in m
    ensures e[v] == p ==> IsSolution(csp, m[v := p], e)
  {
  }

  /** No solution extending `m` gives `v` one of the values `xs`. */
  ghost predicate RuledOut(csp: Csp, m: map<Variable, int>, v: Variable, xs: seq<int>)
    requires v in csp.variables
  {
    forall e {:trigger IsSolution(csp, m, e)} :: IsSolution(csp, m, e) ==> e[v] !in xs
  }

  /** A value every solution avoids, after values every solution avoids, extends the avoided prefix. */
  lemma RuleOutNext(csp: Csp, m: map<Variable, int>, v: Variable, values: seq<int>, i: nat)
    requires v in csp.variables && i < |values|
    requires RuledOut(csp, m, v, values[..i])
    requires forall e {:trigger IsSolution(csp, m, e)} :: IsSolution(csp, m, e) ==> e[v] != values[i]
    ensures RuledOut(csp, m, v, values[..i + 1])
  {
    assert values[..i + 1] == values[..i] + [values[i]];
  }

  /**
   * Correctness of the whole search: when the caller's entries already satisfy every
   * constraint, a sound extension satisfies every constraint as well.
   */
  lemma SoundExtensionSatisfiesAll(csp: Csp, m0: map<Variable, int>, m: map<Variable, int>)
    requires SatisfiesAll(csp.constraints, m0)
    requires SoundExtension(csp, m0, m)
    ensures SatisfiesAll(csp.constraints, m)
  {
    var cs := csp.constraints;
    forall i, x, y | 0 <= i < |cs| && cs[i].Affects(x) && cs[i].Affects(y) && x != y && x in m && y in m
      ensures m[x] != m[y]
    {
      if x !in m0 {
      } else if y !in m0 {
        assert cs[i].Affects(y) && cs[i].Affects(x);
      } else {
        assert m[x] == m0[x] && m[y] == m0[y];
      }
    }
  }

  /**
   * What the first-variable search does from a map when no step ceiling stops it: its result,
   * the map it leaves, and how many calls of the recursion it makes.
   */
  datatype Run = Run(result: SolveResult, values: map<Variable, int>, calls: nat)

  /** A run that comes after `k` calls already made. */
  function Then(k: nat, o: Run): Run {
    Run(o.result, o.values, k + o.calls)
  }

  /**
   * The recursion with `ChooseFirstVariable` and the domain order: one call, then success on a
   * complete map, otherwise the values of the first unassigned variable in turn.
   */
  ghost function Backtrack(csp: Csp, m: map<Variable, int>): (o: Run)
    requires csp.Valid()
    decreases CountUnassigned(csp.variables, m), 2, 0
    ensures o.result != Timeout && o.calls >= 1
    ensures o.result == NoSolution ==> o.values == m
  {
    if AllAssigned(csp.variables, m) then
      Run(Solved, m, 1)
    else
      var v := FirstUnassigned(csp.variables, m).value;
      Then(1, BacktrackValues(csp, m, v, SetCopy(csp.varDomains[v])))
  }

  /** The loop over `xs`: stop at the first value whose search succeeds, adding up the calls. */
  ghost function BacktrackValues(csp: Csp, m: map<Variable, int>, v: Variable, xs: seq<int>): (o: Run)
    requires csp.Valid() && v in csp.variables && v !in m
    decreases CountUnassigned(csp.variables, m), 1, |xs|
    ensures o.result != Timeout
    ensures o.result == NoSolution ==> o.values == m
  {
    if xs == [] then Run(NoSolution, m, 0)
    else
      var first := BacktrackValue(csp, m, v, xs[0]);
      if first.result == Solved then first
      else Then(first.calls, BacktrackValues(csp, m, v, xs[1..]))
  }

  /** One value: rejected without a call when inconsistent, otherwise searched with `v` written. */
  ghost function BacktrackValue(csp: Csp, m: map<Variable, int>, v: Variable, x: int): (o: Run)
    requires csp.Valid() && v in csp.variables && v !in m
    decreases CountUnassigned(csp.variables, m), 0, 0
    ensures o.result != Timeout
    ensures o.result == NoSolution ==> o.values == m
  {
    if !AllApprove(csp, m, v, x) then Run(NoSolution, m, 0)
    else
      AssignDecreasesCount(csp.variables, m, v, x);
      var o := Backtrack(csp, m[v := x]);
      if o.result == Solved then o else Run(NoSolution, m, o.calls)
  }

  /** The uncounted run stays within the bound `StepsFrom`. */
  lemma {:induction false} BacktrackBound(csp: Csp, m: map<Variable, int>)
    requires csp.Valid()
    decreases CountUnassigned(csp.variables, m), 1
    ensures Backtrack(csp, m).calls <= StepsFrom(csp, m)
  {
    if !AllAssigned(csp.variables, m) {
      var v := FirstUnassigned(csp.variables, m).value;
      var xs := SetCopy(csp.varDomains[v]);
      forall x ensures BacktrackValue(csp, m, v, x).calls <= StepsBelow(csp, m) {
        BacktrackValueBound(csp, m, v, x);
      }
      BacktrackValuesBound(csp, m, v, xs, StepsBelow(csp, m));
      StepsUnfold(csp, m);
      TimesMonotone(|xs|, Branching(csp), StepsBelow(csp, m));
    }
  }

  /** One value makes at most one search one level down. */
  lemma {:induction false} BacktrackValueBound(csp: Csp, m: map<Variable, int>, v: Variable, x: int)
    requires csp.Valid() && v in csp.variables && v !in m
    decreases CountUnassigned(csp.variables, m), 0
    ensures BacktrackValue(csp, m, v, x).calls <= StepsBelow(csp, m)
  {
    if AllApprove(csp, m, v, x) {
      AssignDecreasesCount(csp.variables, m, v, x);
      StepsAfterAssign(csp, m, v, x);
      BacktrackBound(csp, m[v := x]);
    }
  }

  /** When each value makes at most `s` calls, the loop over `xs` makes at most `|xs|` times `s`. */
  lemma {:induction false} BacktrackValuesBound(csp: Csp, m: map<Variable, int>, v: Variable, xs: seq<int>, s: nat)
    requires csp.Valid() && v in csp.variables && v !in m
    requires forall x :: BacktrackValue(csp, m, v, x).calls <= s
    ensures BacktrackValues(csp, m, v, xs).calls <= Times(|xs|, s)
  {
    if xs != [] {
      BacktrackValuesBound(csp, m, v, xs[1..], s);
    }
  }

  /**
   * Between `n0` and `n` steps the run `whole` has come to the run `rest`: the same outcome,
   * with the steps spent so far made up by the calls `rest` does not count.
   */
  ghost predicate Reached(n0: nat, whole: Run, n: nat, rest: Run) {
    whole.result == rest.result && whole.values == rest.values && n0 + whole.calls == n + rest.calls
  }

  /** The loop from position `i` on: the value at `i`, then, unless it succeeds, the values after it. */
  lemma BacktrackValuesUnfold(csp: Csp, m: map<Variable, int>, v: Variable, xs: seq<int>, i: nat)
    requires csp.Valid() && v in csp.variables && v !in m
    requires i < |xs|
    ensures var first := BacktrackValue(csp, m, v, xs[i]);
            BacktrackValues(csp, m, v, xs[i..]) ==
            if first.result == Solved then first else Then(first.calls, BacktrackValues(csp, m, v, xs[i + 1..]))
  {
    assert xs[i..][0] == xs[i] && xs[i..][1..] == xs[i + 1..];
  }

  /**
   * A counted search that starts with `n0` steps spent ends as the uncounted run `o` says, with
   * `n0 + o.calls` steps, unless that passes the ceiling, in which case it times out.
   */
  ghost predicate Follows(n0: nat, o: Run, r: SolveResult, values: map<Variable, int>, n: nat) {
    if n0 + o.calls <= TimeoutNumberOfSteps then
      r == o.result && values == o.values && n == n0 + o.calls
    else
      r == Timeout
  }

  /**
   * One value of the loop under the counter: a value that does not fail ends the loop as the
   * uncounted run does; a value that fails leaves the rest of the run to the values after it.
   */
  lemma FollowsStep(csp: Csp, m: map<Variable, int>, v: Variable, xs: seq<int>, i: nat,
                    n0: nat, n1: nat, r: SolveResult, values: map<Variable, int>, n: nat)
    requires csp.Valid() && v in csp.variables && v !in m && i < |xs|
    requires Reached(n0, BacktrackValues(csp, m, v, xs), n1, BacktrackValues(csp, m, v, xs[i..]))
    requires Follows(n1, BacktrackValue(csp, m, v, xs[i]), r, values, n)
    ensures r != NoSolution ==> Follows(n0, BacktrackValues(csp, m, v, xs), r, values, n)
    ensures r == NoSolution ==> Reached(n0, BacktrackValues(csp, m, v, xs), n, BacktrackValues(csp, m, v, xs[i + 1..]))
  {
    BacktrackValuesUnfold(csp, m, v, xs, i);
  }

  /** When every value has failed under the counter, the loop fails as the uncounted run does. */
  lemma FollowsDone(csp: Csp, m: map<Variable, int>, v: Variable, xs: seq<int>, n0: nat, n: nat)
    requires csp.Valid() && v in csp.variables && v !in m
    requires n <= TimeoutNumberOfSteps
    requires Reached(n0, BacktrackValues(csp, m, v, xs), n, BacktrackValues(csp, m, v, xs[|xs|..]))
    ensures Follows(n0, BacktrackValues(csp, m, v, xs), NoSolution, m, n)
  {
    assert xs[|xs|..] == [];
  }

  class RecursiveBacktrackingSolver {
    const selectVariable: SelectVariable
    /** `NumberOfSteps`: never reset, so it accumulates across `Solve` calls. */
    var numberOfSteps: nat

    constructor (selectVariable: SelectVariable)
      ensures this.selectVariable == selectVariable && numberOfSteps == 0
    {
      this.selectVariable := selectVariable;
      numberOfSteps := 0;
    }

    /** `Solve`: one call of the recursion on the caller's assignment, step count carried over. */
    method Solve(csp: Csp, a: Assignment) returns (r: SolveResult)
      requires a.Valid() && a.csp == csp
      modifies this`numberOfSteps, a`values
      ensures numberOfSteps > old(numberOfSteps)
      ensures numberOfSteps <= old(numberOfSteps) + StepsFrom(csp, old(a.values))
      ensures SoundExtension(csp, old(a.values), a.values)
      ensures r == Solved ==> IsSolution(csp, old(a.values), a.values)
      ensures r == NoSolution ==> a.values == old(a.values)
      ensures r == NoSolution ==> forall e :: !IsSolution(csp, old(a.values), e)
      ensures r == Timeout <==> numberOfSteps > TimeoutNumberOfSteps
      ensures selectVariable == ChooseFirst ==>
                Follows(old(numberOfSteps), Backtrack(csp, old(a.values)), r, a.values, numberOfSteps)
    {
      r := RecursiveBacktracking(csp, a);
    }

    /**
     * `RecursiveBacktracking`: count the step, give up past the ceiling, succeed on a complete
     * assignment, otherwise try the selected variable's domain values in order.
     */
    method RecursiveBacktracking(csp: Csp, a: Assignment) returns (r: SolveResult)
      requires a.Valid() && a.csp == csp
      modifies this`numberOfSteps, a`values
      decreases CountUnassigned(csp.variables, a.values), 2
      ensures numberOfSteps > old(numberOfSteps)
      ensures numberOfSteps <= old(numberOfSteps) + StepsFrom(csp, old(a.values))
      ensures SoundExtension(csp, old(a.values), a.values)
      ensures r == Solved ==> AllAssigned(csp.variables, a.values)
      ensures r == NoSolution ==> a.values == old(a.values)
      ensures r == NoSolution ==> forall e :: !IsSolution(csp, old(a.values), e)
      ensures r == Timeout <==> numberOfSteps > TimeoutNumberOfSteps
      ensures r == Timeout ==> numberOfSteps == Max(old(numberOfSteps), TimeoutNumberOfSteps) + 1
      ensures old(numberOfSteps) < TimeoutNumberOfSteps && old(AllAssigned(csp.variables, a.values)) ==>
                r == Solved && a.values == old(a.values) && numberOfSteps == old(numberOfSteps) + 1
      ensures selectVariable == ChooseFirst ==>
                Follows(old(numberOfSteps), Backtrack(csp, old(a.values)), r, a.values, numberOfSteps)
    {
      SoundExtensionReflexive(csp, a.values);
      numberOfSteps := numberOfSteps + 1;
      if numberOfSteps > TimeoutNumberOfSteps {
        return Timeout;
      }

      var complete := a.ScanIsComplete();
      if complete {
        return Solved;
      }

      var choice: Option<Variable>;
      if selectVariable == ChooseFirst {
        choice := ChooseFirstVariable(a, csp);
      } else {
        choice := ChooseRandomVariable(a, csp);
      }
      var variable := choice.value;
      ghost var m := a.values;
      var values := TrivialOrderValues(a, csp, variable);
      r := TryValues(csp, a, variable, values);
      if r == NoSolution {
        forall e | IsSolution(csp, m, e) ensures false {
          SolutionApproves(csp, m, variable, e);
        }
      }
      StepsUnfold(csp, m);
      if selectVariable == ChooseFirst {
        BacktrackBound(csp, m);
      } else {
        TimesMonotone(|values|, Branching(csp), StepsBelow(csp, m));
      }
    }

    /**
     * The `foreach` over the ordered values of `variable`: try each in turn and stop at the
     * first that does not fail.
     */
    method TryValues(csp: Csp, a: Assignment, variable: Variable, values: seq<int>) returns (r: SolveResult)
      requires a.Valid() && a.csp == csp
      requires variable in csp.variables && variable !in a.values
      requires forall x :: x in values ==> x in csp.varDomains[variable]
      requires numberOfSteps <= TimeoutNumberOfSteps
      modifies this`numberOfSteps, a`values
      decreases CountUnassigned(csp.variables, a.values), 1
      ensures numberOfSteps >= old(numberOfSteps)
      ensures selectVariable != ChooseFirst ==> numberOfSteps <= old(numberOfSteps) + Times(|values|, StepsBelow(csp, old(a.values)))
      ensures SoundExtension(csp, old(a.values), a.values)
      ensures r == Solved ==> AllAssigned(csp.variables, a.values)
      ensures r == NoSolution ==> a.values == old(a.values)
      ensures r == NoSolution ==> RuledOut(csp, old(a.values), variable, values)
      ensures r != NoSolution ==>
                exists k :: 0 <= k < |values| && variable in a.values && a.values[variable] == values[k] &&
                            RuledOut(csp, old(a.values), variable, values[..k])
      ensures r == Timeout <==> numberOfSteps > TimeoutNumberOfSteps
      ensures r == Timeout ==> numberOfSteps == TimeoutNumberOfSteps + 1
      ensures selectVariable == ChooseFirst ==>
                Follows(old(numberOfSteps), BacktrackValues(csp, old(a.values), variable, values), r, a.values, numberOfSteps)
    {
      ghost var m := a.values;
      ghost var below := StepsBelow(csp, m);
      SoundExtensionReflexive(csp, m);
      var i := 0;
      while i < |values|
        invariant 0 <= i <= |values|
        invariant a.values == m
        invariant old(numberOfSteps) <= numberOfSteps <= TimeoutNumberOfSteps
        invariant selectVariable != ChooseFirst ==> numberOfSteps + Times(|values| - i, below) <= old(numberOfSteps) + Times(|values|, below)
        invariant RuledOut(csp, m, variable, values[..i])
        invariant selectVariable == ChooseFirst ==>
                    Reached(old(numberOfSteps), BacktrackValues(csp, m, variable, values),
                            numberOfSteps, BacktrackValues(csp, m, variable, values[i..]))
      {
        ghost var n1 := numberOfSteps;
        r := TryValue(csp, a, variable, values[i]);
        if selectVariable == ChooseFirst {
          FollowsStep(csp, m, variable, values, i, old(numberOfSteps), n1, r, a.values, numberOfSteps);
        }
        if r != NoSolution {
          assert variable in a.values && a.values[variable] == values[i];
          break;
        }
        RuleOutNext(csp, m, variable, values, i);
        i := i + 1;
      }
      if i == |values| {
        assert values[..i] == values;
        if selectVariable == ChooseFirst {
          FollowsDone(csp, m, variable, values, old(numberOfSteps), numberOfSteps);
        }
        r := NoSolution;
      }
    }

    /**
     * One pass of the loop over candidate values: write `value` only if the consistency check
     * accepts it, search on, and on failure remove the write again.
     */
    method TryValue(csp: Csp, a: Assignment, variable: Variable, value: int) returns (r: SolveResult)
      requires a.Valid() && a.csp == csp
      requires variable in csp.variables && variable !in a.values && value in csp.varDomains[variable]
      requires numberOfSteps <= TimeoutNumberOfSteps
      modifies this`numberOfSteps, a`values
      decreases CountUnassigned(csp.variables, a.values), 0
      ensures numberOfSteps >= old(numberOfSteps)
      ensures numberOfSteps <= old(numberOfSteps) + StepsBelow(csp, old(a.values))
      ensures r != NoSolution ==> variable in a.values && a.values[variable] == value
      ensures SoundExtension(csp, old(a.values), a.values)
      ensures r == Solved ==> AllAssigned(csp.variables, a.values)
      ensures r == NoSolution ==> a.values == old(a.values)
      ensures r == NoSolution ==> forall e {:trigger IsSolution(csp, old(a.values), e)} :: IsSolution(csp, old(a.values), e) ==> e[variable] != value
      ensures r == Timeout <==> numberOfSteps > TimeoutNumberOfSteps
      ensures r == Timeout ==> numberOfSteps == TimeoutNumberOfSteps + 1
      ensures selectVariable == ChooseFirst ==>
                Follows(old(numberOfSteps), BacktrackValue(csp, old(a.values), variable, value), r, a.values, numberOfSteps)
    {
      ghost var m := a.values;
      SoundExtensionReflexive(csp, m);
      if !IsVariableValueConsistent(csp, a.values, variable, value) {
        forall e | IsSolution(csp, m, e) ensures e[variable] != value {
          SolutionApproves(csp, m, variable, e);
        }
        return NoSolution;
      }

      a.Assign(variable, value);
      AssignDecreasesCount(csp.variables, m, variable, value);
      StepsAfterAssign(csp, m, variable, value);

      r := RecursiveBacktracking(csp, a);

      if r != NoSolution {
        SoundStep(csp, m, variable, value, a.values);
        return r;
      }

      a.Unassign(variable);
      UndoWrite(m, variable, value);
      forall e | IsSolution(csp, m, e) ensures e[variable] != value {
        SolutionDescends(csp, m, variable, value, e);
      }
    }
  }
}
