/**
 Whole runs of the workflow machine: the flow simulation of `test-utils.ts`, and what every
 run keeps, counts and ends with.
 */
module WorkflowRuns {
  import opened Collections
  import opened WorkflowEngine

  datatype SimState = SimState(currentStepId: string, iteration: nat, visitedSteps: seq<string>)

  datatype TraceEntry = TraceEntry(
    stepId: string,
    signal: Option<string>,
    resolvedCurrentStepId: string,
    result: TransitionResult,
    iteration: nat)

  datatype Evaluation = Evaluation(entry: TraceEntry, nextState: Option<SimState>)

  /** The visited list with `nextId` moved, or added, to its end: the last entry is the current step. */
  function BuildVisitedSteps(visited: seq<string>, nextId: string): seq<string> {
    if nextId in visited then Without(visited, nextId) + [nextId] else visited + [nextId]
  }

  function ResolvedCurrent(state: SimState): string {
    if state.visitedSteps != [] then Last(state.visitedSteps) else state.currentStepId
  }

  function EvaluateStep(def: WorkflowDefinition, state: SimState, step: StepResult)
    : Result<Evaluation, EngineError>
  {
    var current := ResolvedCurrent(state);
    match EvaluateTransition(def, current, step, IterationContext(state.iteration, state.visitedSteps))
    case Err(e) => Err(e)
    case Ok(result) =>
      var entry := TraceEntry(state.currentStepId, step.signal, current, result, state.iteration);
      Ok(Evaluation(entry, if result.Goto? then Some(Advance(state, result)) else None))
  }

  function Advance(state: SimState, result: TransitionResult): SimState
    requires result.Goto?
  {
    SimState(
      result.stepId,
      if result.shouldIncrementIteration then state.iteration + 1 else state.iteration,
      BuildVisitedSteps(state.visitedSteps, result.stepId))
  }

  function StartAt(stepId: string): SimState {
    SimState(stepId, 0, [stepId])
  }

  function Prepend(front: seq<TraceEntry>, r: Result<seq<TraceEntry>, EngineError>)
    : Result<seq<TraceEntry>, EngineError>
  {
    match r
    case Err(e) => Err(e)
    case Ok(rest) => Ok(front + rest)
  }

  /** The trace of a run that starts in `state`. */
  function Trace(def: WorkflowDefinition, state: SimState, steps: seq<StepResult>)
    : Result<seq<TraceEntry>, EngineError>
    decreases |steps|
  {
    if steps == [] then Ok([])
    else
      match EvaluateStep(def, state, steps[0])
      case Err(e) => Err(e)
      case Ok(evaluated) =>
        if evaluated.nextState.None? then Ok([evaluated.entry])
        else Prepend([evaluated.entry], Trace(def, evaluated.nextState.value, steps[1..]))
  }

  method SimulateExecutionServiceFlow(def: WorkflowDefinition, steps: seq<StepResult>)
      returns (r: Result<seq<TraceEntry>, EngineError>)
    ensures GetInitialStep(def).Err? ==> r == Err(GetInitialStep(def).error)
    ensures GetInitialStep(def).Ok? ==> r == Trace(def, StartAt(GetInitialStep(def).value.id), steps)
  {
    var initial := GetInitialStep(def);
    if initial.Err? {
      return Err(initial.error);
    }
    var state := StartAt(initial.value.id);
    ghost var whole := Trace(def, state, steps);
    var trace: seq<TraceEntry> := [];
    assert steps[0..] == steps;
    assert whole.Ok? ==> [] + whole.value == whole.value;
    for k := 0 to |steps|
      invariant whole == Prepend(trace, Trace(def, state, steps[k..]))
    {
      var evaluated := EvaluateStep(def, state, steps[k]);
      assert steps[k..][1..] == steps[k + 1..];
      if evaluated.Err? {
        return Err(evaluated.error);
      }
      if evaluated.value.nextState.None? {
        return Ok(trace + [evaluated.value.entry]);
      }
      PrependTwice(trace, [evaluated.value.entry], Trace(def, evaluated.value.nextState.value, steps[k + 1..]));
      trace := trace + [evaluated.value.entry];
      state := evaluated.value.nextState.value;
    }
    assert trace + [] == trace;
    return Ok(trace);
  }

  lemma PrependTwice(a: seq<TraceEntry>, b: seq<TraceEntry>, r: Result<seq<TraceEntry>, EngineError>)
    ensures Prepend(a, Prepend(b, r)) == Prepend(a + b, r)
  {
    if r.Ok? {
      assert a + (b + r.value) == a + b + r.value;
    }
  }

  // ---------------------------------------------------------------------------
  // Runs
  // ---------------------------------------------------------------------------

  datatype RunStatus = Running | Stopped(result: TransitionResult) | Raised(error: EngineError)

  /** Where a run stands after its inputs, and how many moves to a step it made. */
  datatype RunEnd = RunEnd(state: SimState, moves: nat, status: RunStatus)

  function Run(def: WorkflowDefinition, state: SimState, inputs: seq<StepResult>): RunEnd
    decreases |inputs|
  {
    if inputs == [] then RunEnd(state, 0, Running)
    else
      match EvaluateStep(def, state, inputs[0])
      case Err(e) => RunEnd(state, 0, Raised(e))
      case Ok(evaluated) =>
        if evaluated.nextState.None? then RunEnd(state, 0, Stopped(evaluated.entry.result))
        else
          var rest := Run(def, evaluated.nextState.value, inputs[1..]);
          rest.(moves := rest.moves + 1)
  }

  /** The current step is the last entry of a duplicate-free visited list. */
  ghost predicate WellFormed(state: SimState) {
    && state.visitedSteps != []
    && NoDuplicates(state.visitedSteps)
    && Last(state.visitedSteps) == state.currentStepId
  }

  ghost predicate Moves(def: WorkflowDefinition, s: SimState, input: StepResult, n: SimState) {
    EvaluateStep(def, s, input).Ok? && EvaluateStep(def, s, input).value.nextState == Some(n)
  }

  lemma VisitedStepsKeepForm(visited: seq<string>, nextId: string)
    requires NoDuplicates(visited)
    ensures var next := BuildVisitedSteps(visited, nextId);
            && NoDuplicates(next)
            && next != [] && Last(next) == nextId
            && Elements(next) == Elements(visited) + {nextId}
            && |next| == if nextId in visited then |visited| else |visited| + 1
  {
    WithoutKeepsOrder(visited, nextId);
    var next := BuildVisitedSteps(visited, nextId);
    forall x ensures x in Elements(next) <==> x in Elements(visited) + {nextId} {
      if nextId in visited {
        assert x in next <==> x in Without(visited, nextId) || x == nextId;
      } else {
        assert x in next <==> x in visited || x == nextId;
      }
    }
  }

  /** A move takes one selectable transition along one live branch. */
  lemma MoveShape(def: WorkflowDefinition, s: SimState, input: StepResult, n: SimState) returns (i: int)
    requires WellFormed(s) && Moves(def, s, input, n)
    ensures s.currentStepId in def.steps
    ensures Selectable(def.steps[s.currentStepId].transitions, i)
    ensures WellFormed(n)
    ensures var t := def.steps[s.currentStepId].transitions[i];
            var branch := BranchAt(t, s.iteration);
            var looping := n.currentStepId in s.visitedSteps;
            && n.currentStepId == BranchTarget(t, branch)
            && n.currentStepId in def.steps && !IsTerminalState(n.currentStepId)
            && n.iteration == s.iteration + (if CountsLoops(t, branch) && looping then 1 else 0)
            && Elements(n.visitedSteps) == Elements(s.visitedSteps) + {n.currentStepId}
            && |n.visitedSteps| == |s.visitedSteps| + (if looping then 0 else 1)
  {
    var transitions := def.steps[s.currentStepId].transitions;
    var picked := FindMatchingTransition(transitions, input);
    assert picked.Some?;
    i := PickedIsSelectable(transitions, input, picked.value);
    ResolveTransitionByBranch(transitions[i], def.steps, IterationContext(s.iteration, s.visitedSteps));
    VisitedStepsKeepForm(s.visitedSteps, n.currentStepId);
  }

  /** The step evaluated is the last visited one, whatever else the state says, and the entry reports it. */
  lemma EvaluatesLastVisited(def: WorkflowDefinition, state: SimState, input: StepResult)
    requires state.visitedSteps != []
    ensures var evaluated := EvaluateStep(def, state, input);
            var answer := EvaluateTransition(def, Last(state.visitedSteps), input,
                                             IterationContext(state.iteration, state.visitedSteps));
            && (evaluated.Ok? <==> answer.Ok?)
            && (evaluated.Ok? ==>
                  && evaluated.value.entry.result == answer.value
                  && evaluated.value.entry.resolvedCurrentStepId == Last(state.visitedSteps)
                  && evaluated.value.entry.stepId == state.currentStepId
                  && evaluated.value.entry.iteration == state.iteration
                  && evaluated.value.entry.signal == input.signal
                  && (evaluated.value.nextState.Some? <==> answer.value.Goto?))
  {
  }

  /** Every run keeps the form of its state and never forgets a step or an iteration. */
  lemma {:induction false} RunKeepsForm(def: WorkflowDefinition, s: SimState, inputs: seq<StepResult>)
    requires WellFormed(s)
    ensures var end := Run(def, s, inputs).state;
            && WellFormed(end)
            && s.iteration <= end.iteration
            && Elements(s.visitedSteps) <= Elements(end.visitedSteps)
            && Elements(end.visitedSteps) <= Elements(s.visitedSteps) + def.steps.Keys
            && (s.currentStepId in def.steps ==> end.currentStepId in def.steps)
    decreases |inputs|
  {
    if inputs != [] && EvaluateStep(def, s, inputs[0]).Ok? {
      var next := EvaluateStep(def, s, inputs[0]).value.nextState;
      if next.Some? {
        var _ := MoveShape(def, s, inputs[0], next.value);
        RunKeepsForm(def, next.value, inputs[1..]);
      }
    }
  }

  /**
   A validated workflow without a live empty target never raises, whatever visited list a retry
   brings along and whatever the agents report.
   */
  lemma {:induction false} RunsNeverRaise(def: WorkflowDefinition, s: SimState, inputs: seq<StepResult>)
    requires Accepted(def) && NoLiveEmptyTarget(def)
    requires WellFormed(s) && s.currentStepId in def.steps
    ensures !Run(def, s, inputs).status.Raised?
    decreases |inputs|
  {
    if inputs != [] {
      NeverRaisesExactly(def);
      var next := EvaluateStep(def, s, inputs[0]).value.nextState;
      if next.Some? {
        var _ := MoveShape(def, s, inputs[0], next.value);
        RunsNeverRaise(def, next.value, inputs[1..]);
      }
    }
  }

  /** The hypothesis on ids is needed, and only for the first step: it is the one entered by its `id`. */
  lemma FreshRunsNeverRaiseExactly(def: WorkflowDefinition)
    requires Accepted(def) && NoLiveEmptyTarget(def)
    ensures (forall inputs :: !Run(def, StartAt(def.steps[def.initialStep].id), inputs).status.Raised?)
       <==> def.steps[def.initialStep].id in def.steps
  {
    var s := StartAt(def.steps[def.initialStep].id);
    if s.currentStepId in def.steps {
      forall inputs ensures !Run(def, s, inputs).status.Raised? {
        RunsNeverRaise(def, s, inputs);
      }
    } else {
      var inputs := [StepResult(Success, None)];
      assert EvaluateStep(def, s, inputs[0]) == Err(StepNotFound(s.currentStepId));
      assert Run(def, s, inputs).status == Raised(StepNotFound(s.currentStepId));
    }
  }

  /** The entry at position `k` of a trace shows the state that the first `k` inputs lead to. */
  lemma {:induction false} TraceShowsRun(def: WorkflowDefinition, s: SimState, inputs: seq<StepResult>, k: nat)
    requires WellFormed(s)
    requires Trace(def, s, inputs).Ok? && k < |Trace(def, s, inputs).value|
    ensures k < |inputs|
    ensures var entry := Trace(def, s, inputs).value[k];
            var before := Run(def, s, inputs[..k]);
            && before.status == Running && before.moves == k
            && entry.stepId == entry.resolvedCurrentStepId == before.state.currentStepId
            && entry.iteration == before.state.iteration
            && entry.signal == inputs[k].signal
    decreases |inputs|
  {
    var evaluated := EvaluateStep(def, s, inputs[0]).value;
    if k > 0 {
      var next := evaluated.nextState.value;
      var _ := MoveShape(def, s, inputs[0], next);
      TraceShowsRun(def, next, inputs[1..], k - 1);
      assert inputs[..k][1..] == inputs[1..][..k - 1];
    }
  }

  ghost predicate SameUpToFailureSignals(a: seq<StepResult>, b: seq<StepResult>) {
    && |a| == |b|
    && forall i :: 0 <= i < |a| ==> a[i] == b[i] || (a[i].status == Failure && b[i].status == Failure)
  }

  /** What the machine does: the trace without the signals it was fed. */
  ghost function Unsigned(r: Result<seq<TraceEntry>, EngineError>): Result<seq<TraceEntry>, EngineError> {
    match r
    case Err(e) => Err(e)
    case Ok(trace) => Ok(seq(|trace|, i requires 0 <= i < |trace| => trace[i].(signal := None)))
  }

  /** Signals on failed steps change neither the run nor any line of its trace. */
  lemma {:induction false} FailureSignalsAreIgnored(
    def: WorkflowDefinition, s: SimState, a: seq<StepResult>, b: seq<StepResult>)
    requires SameUpToFailureSignals(a, b)
    ensures Run(def, s, a) == Run(def, s, b)
    ensures Unsigned(Trace(def, s, a)) == Unsigned(Trace(def, s, b))
    decreases |a|
  {
    if a != [] {
      if a[0] != b[0] {
        FailureIgnoresSignal(def, ResolvedCurrent(s), a[0], b[0], IterationContext(s.iteration, s.visitedSteps));
      }
      var ea := EvaluateStep(def, s, a[0]);
      if ea.Ok? {
        var eb := EvaluateStep(def, s, b[0]);
        assert ea.value.entry.(signal := None) == eb.value.entry.(signal := None);
        if ea.value.nextState.Some? {
          var next := ea.value.nextState.value;
          FailureSignalsAreIgnored(def, next, a[1..], b[1..]);
          UnsignedCons(ea.value.entry, Trace(def, next, a[1..]));
          UnsignedCons(eb.value.entry, Trace(def, next, b[1..]));
        } else {
          assert Unsigned(Ok([ea.value.entry])).value == [ea.value.entry.(signal := None)];
          assert Unsigned(Ok([eb.value.entry])).value == [eb.value.entry.(signal := None)];
        }
      }
    }
  }

  lemma UnsignedCons(entry: TraceEntry, rest: Result<seq<TraceEntry>, EngineError>)
    ensures Unsigned(Prepend([entry], rest)) == Prepend([entry.(signal := None)], Unsigned(rest))
  {
    if rest.Ok? {
      var both := Unsigned(Prepend([entry], rest)).value;
      assert both == [entry.(signal := None)] + Unsigned(rest).value;
    }
  }

  // ---------------------------------------------------------------------------
  // Termination
  // ---------------------------------------------------------------------------

  /**
   `rank(k, _)` falls along every transition that can be taken at iteration `k`, except below `cap`
   along those that raise the counter on a loop.
   */
  ghost predicate DescendsAt(def: WorkflowDefinition, rank: (nat, string) -> nat, cap: nat) {
    forall k: nat, id, i ::
      id in def.steps && Selectable(def.steps[id].transitions, i) ==>
        TransitionDescends(def, rank, cap, k, id, def.steps[id].transitions[i])
  }

  ghost predicate TransitionDescends(
    def: WorkflowDefinition, rank: (nat, string) -> nat, cap: nat, k: nat, id: string, t: Transition)
  {
    var branch := BranchAt(t, k);
    var target := BranchTarget(t, branch);
    target in def.steps && !IsTerminalState(target) && (k < cap ==> !CountsLoops(t, branch)) ==>
      rank(k, target) < rank(k, id)
  }

  /** From `cap` iterations on the rank no longer depends on the counter. */
  ghost predicate Steady(rank: (nat, string) -> nat, cap: nat) {
    forall k: nat, id :: k >= cap ==> rank(k, id) == rank(cap, id)
  }

  ghost predicate SchemaAllowsAll(def: WorkflowDefinition) {
    forall id, i :: id in def.steps && 0 <= i < |def.steps[id].transitions| ==>
      SchemaAllows(def.steps[id].transitions[i])
  }

  ghost function Unvisited(def: WorkflowDefinition, s: SimState): set<string> {
    def.steps.Keys - Elements(s.visitedSteps)
  }

  /** How many counted loops and first visits are left. */
  ghost function Budget(def: WorkflowDefinition, s: SimState, cap: nat): nat {
    (if s.iteration < cap then cap - s.iteration else 0) + |Unvisited(def, s)|
  }

  /** `major * (top + 1) + minor`, by repeated addition. */
  function Lexicographic(major: nat, minor: nat, top: nat): nat {
    if major == 0 then minor else top + 1 + Lexicographic(major - 1, minor, top)
  }

  lemma {:induction false} LexicographicValue(major: nat, minor: nat, top: nat)
    ensures Lexicographic(major, minor, top) == major * (top + 1) + minor
  {
    if major > 0 {
      LexicographicValue(major - 1, minor, top);
    }
  }

  lemma {:induction false} LexicographicGrows(a': nat, r': nat, a: nat, r: nat, top: nat)
    requires (a' < a && r' <= top) || (a' == a && r' < r)
    ensures Lexicographic(a', r', top) < Lexicographic(a, r, top)
    decreases a
  {
    if a' > 0 {
      LexicographicGrows(a' - 1, r', a - 1, r, top);
    } else if a > 1 {
      LexicographicGrows(0, r', a - 1, r, top);
    }
  }

  /** What a move may take from the steps not visited yet. */
  lemma UnvisitedAfter(def: WorkflowDefinition, s: SimState, n: SimState)
    requires n.currentStepId in def.steps
    requires Elements(n.visitedSteps) == Elements(s.visitedSteps) + {n.currentStepId}
    ensures if n.currentStepId in s.visitedSteps then Unvisited(def, n) == Unvisited(def, s)
            else |Unvisited(def, n)| < |Unvisited(def, s)|
  {
    if n.currentStepId in s.visitedSteps {
      assert Unvisited(def, n) == Unvisited(def, s);
    } else {
      assert Unvisited(def, n) == Unvisited(def, s) - {n.currentStepId};
      assert n.currentStepId in Unvisited(def, s);
    }
  }

  /** The rank falls along every transition that the state can take, as `DescendsAt` says. */
  ghost predicate DescendsHere(def: WorkflowDefinition, rank: (nat, string) -> nat, cap: nat, s: SimState) {
    s.currentStepId in def.steps ==>
      forall i :: Selectable(def.steps[s.currentStepId].transitions, i) ==>
        TransitionDescends(def, rank, cap, s.iteration, s.currentStepId, def.steps[s.currentStepId].transitions[i])
  }

  ghost predicate LeadsTo(def: WorkflowDefinition, s: SimState, inputs: seq<StepResult>, end: SimState) {
    Run(def, s, inputs).status == Running && Run(def, s, inputs).state == end
  }

  /** And so it does in every state that some run leads to. */
  ghost predicate DescendsFrom(def: WorkflowDefinition, rank: (nat, string) -> nat, cap: nat, s: SimState) {
    forall inputs, end :: LeadsTo(def, s, inputs, end) ==> DescendsHere(def, rank, cap, end)
  }

  lemma MoveDescends(
    def: WorkflowDefinition, s: SimState, input: StepResult, n: SimState, rank: (nat, string) -> nat, cap: nat)
    requires DescendsHere(def, rank, cap, s) && Steady(rank, cap)
    requires WellFormed(s) && Moves(def, s, input, n)
    ensures WellFormed(n) && n.currentStepId in def.steps
    ensures || Budget(def, n, cap) < Budget(def, s, cap)
            || (Budget(def, n, cap) == Budget(def, s, cap)
                && rank(n.iteration, n.currentStepId) < rank(s.iteration, s.currentStepId))
  {
    var i := MoveShape(def, s, input, n);
    UnvisitedAfter(def, s, n);
    var t := def.steps[s.currentStepId].transitions[i];
    var branch := BranchAt(t, s.iteration);
    assert TransitionDescends(def, rank, cap, s.iteration, s.currentStepId, t);
    if n.currentStepId in s.visitedSteps && (s.iteration >= cap || !CountsLoops(t, branch)) {
      assert rank(s.iteration, n.currentStepId) < rank(s.iteration, s.currentStepId);
    }
  }

  lemma DescendsAfterMove(
    def: WorkflowDefinition, s: SimState, input: StepResult, n: SimState, rank: (nat, string) -> nat, cap: nat)
    requires DescendsFrom(def, rank, cap, s) && Moves(def, s, input, n)
    ensures DescendsHere(def, rank, cap, s) && DescendsFrom(def, rank, cap, n)
  {
    assert LeadsTo(def, s, [], s);
    forall inputs, end | LeadsTo(def, n, inputs, end) ensures DescendsHere(def, rank, cap, end) {
      assert ([input] + inputs)[1..] == inputs;
      assert LeadsTo(def, s, [input] + inputs, end);
    }
  }

  /**
   Under such a rank every run ends. The measure is the pair of the budget and the current step's
   rank; read as one number it bounds the moves.
   */
  lemma {:induction false} RunsAreBounded(
    def: WorkflowDefinition, s: SimState, inputs: seq<StepResult>,
    rank: (nat, string) -> nat, cap: nat, top: nat, budget: nat)
    requires DescendsFrom(def, rank, cap, s) && Steady(rank, cap)
    requires forall k: nat, id :: rank(k, id) <= top
    requires WellFormed(s) && Budget(def, s, cap) <= budget
    ensures Run(def, s, inputs).moves <= Lexicographic(budget, rank(s.iteration, s.currentStepId), top)
    decreases |inputs|
  {
    if inputs != [] && EvaluateStep(def, s, inputs[0]).Ok? {
      var next := EvaluateStep(def, s, inputs[0]).value.nextState;
      if next.Some? {
        var n := next.value;
        DescendsAfterMove(def, s, inputs[0], n, rank, cap);
        MoveDescends(def, s, inputs[0], n, rank, cap);
        var left := if Budget(def, n, cap) < Budget(def, s, cap) then budget - 1 else budget;
        LexicographicGrows(
          left, rank(n.iteration, n.currentStepId), budget, rank(s.iteration, s.currentStepId), top);
        RunsAreBounded(def, n, inputs[1..], rank, cap, top, left);
      }
    }
  }

  /** A run that is still going has moved once for every input. */
  lemma {:induction false} RunningMeansMoved(def: WorkflowDefinition, s: SimState, inputs: seq<StepResult>)
    ensures Run(def, s, inputs).moves <= |inputs|
    ensures Run(def, s, inputs).status == Running <==> Run(def, s, inputs).moves == |inputs|
    decreases |inputs|
  {
    if inputs != [] && EvaluateStep(def, s, inputs[0]).Ok? {
      var next := EvaluateStep(def, s, inputs[0]).value.nextState;
      if next.Some? {
        RunningMeansMoved(def, next.value, inputs[1..]);
      }
    }
  }

  lemma BudgetAtMost(def: WorkflowDefinition, s: SimState, cap: nat)
    ensures Budget(def, s, cap) <= cap + |def.steps|
  {
    assert |def.steps.Keys| == |def.steps|;
    SubsetSize(Unvisited(def, s), def.steps.Keys);
  }

  ghost predicate RunsBoundedBy(def: WorkflowDefinition, s: SimState, bound: nat) {
    forall inputs :: Run(def, s, inputs).moves <= bound
  }

  /** A bound on the runs from every state: a retry may start at any step, with any counters. */
  ghost predicate MovesBoundedBy(def: WorkflowDefinition, bound: nat) {
    forall s :: WellFormed(s) ==> RunsBoundedBy(def, s, bound)
  }

  /** `(cap + steps + 1) * (top + 1)`. */
  function MoveBound(def: WorkflowDefinition, cap: nat, top: nat): nat {
    Lexicographic(cap + |def.steps| + 1, 0, top)
  }

  lemma MoveBoundIs(def: WorkflowDefinition, cap: nat, top: nat)
    ensures MoveBound(def, cap, top) == (cap + |def.steps| + 1) * (top + 1)
  {
    LexicographicValue(cap + |def.steps| + 1, 0, top);
  }

  lemma RankBoundsRun(
    def: WorkflowDefinition, s: SimState, inputs: seq<StepResult>, rank: (nat, string) -> nat, cap: nat, top: nat,
    budget: nat)
    requires WellFormed(s) && DescendsFrom(def, rank, cap, s) && Steady(rank, cap)
    requires forall k: nat, id :: rank(k, id) <= top
    requires Budget(def, s, cap) <= budget
    ensures Run(def, s, inputs).moves <= Lexicographic(budget + 1, 0, top)
  {
    RunsAreBounded(def, s, inputs, rank, cap, top, budget);
    LexicographicGrows(budget, rank(s.iteration, s.currentStepId), budget + 1, 0, top);
  }

  lemma RankBoundsRunsBy(
    def: WorkflowDefinition, s: SimState, rank: (nat, string) -> nat, cap: nat, top: nat, budget: nat, bound: nat)
    requires WellFormed(s) && DescendsFrom(def, rank, cap, s) && Steady(rank, cap)
    requires forall k: nat, id :: rank(k, id) <= top
    requires Budget(def, s, cap) <= budget && bound == Lexicographic(budget + 1, 0, top)
    ensures RunsBoundedBy(def, s, bound)
  {
    forall inputs ensures Run(def, s, inputs).moves <= bound {
      RankBoundsRun(def, s, inputs, rank, cap, top, budget);
    }
  }

  lemma RankBoundsRuns(def: WorkflowDefinition, s: SimState, rank: (nat, string) -> nat, cap: nat, top: nat)
    requires WellFormed(s) && DescendsFrom(def, rank, cap, s) && Steady(rank, cap)
    requires forall k: nat, id :: rank(k, id) <= top
    ensures RunsBoundedBy(def, s, MoveBound(def, cap, top))
  {
    var budget := cap + |def.steps|;
    BudgetAtMost(def, s, cap);
    RankBoundsRunsBy(def, s, rank, cap, top, budget, MoveBound(def, cap, top));
  }

  /** No run from any state moves more than `(cap + steps + 1) * (top + 1)` times. */
  lemma RankBoundsEveryRun(def: WorkflowDefinition, rank: (nat, string) -> nat, cap: nat, top: nat)
    requires DescendsAt(def, rank, cap) && Steady(rank, cap)
    requires forall k: nat, id :: rank(k, id) <= top
    ensures MovesBoundedBy(def, MoveBound(def, cap, top))
    ensures MoveBound(def, cap, top) == (cap + |def.steps| + 1) * (top + 1)
  {
    MoveBoundIs(def, cap, top);
    forall s | WellFormed(s) ensures RunsBoundedBy(def, s, MoveBound(def, cap, top)) {
      assert forall n :: DescendsHere(def, rank, cap, n);
      RankBoundsRuns(def, s, rank, cap, top);
    }
  }

  /** Fed more results than the bound, a run has stopped. */
  lemma BoundedRunsStop(def: WorkflowDefinition, s: SimState, inputs: seq<StepResult>, bound: nat)
    requires RunsBoundedBy(def, s, bound) && |inputs| > bound
    ensures Run(def, s, inputs).status != Running
  {
    RunningMeansMoved(def, s, inputs);
  }

  /** A loop over this branch is counted, and stops being taken at `cap` iterations. */
  predicate Capped(t: Transition, branch: Branch, cap: nat) {
    CountsLoops(t, branch) && t.maxIterations.Some? && t.maxIterations.value <= cap
  }

  /** `rank` falls along every live branch that no counter caps. */
  ghost predicate Descends(def: WorkflowDefinition, rank: string -> nat, cap: nat) {
    forall id, i, branch ::
      && id in def.steps
      && Selectable(def.steps[id].transitions, i)
      && branch in LiveBranches(def.steps[id].transitions[i])
      ==> BranchDescends(def, rank, cap, id, def.steps[id].transitions[i], branch)
  }

  ghost predicate BranchDescends(
    def: WorkflowDefinition, rank: string -> nat, cap: nat, id: string, t: Transition, branch: Branch)
  {
    var target := BranchTarget(t, branch);
    target in def.steps && !IsTerminalState(target) && !Capped(t, branch, cap) ==> rank(target) < rank(id)
  }

  /** A rank of the steps alone, falling along every edge that is not a counted and capped one, is enough. */
  lemma StepRankBoundsEveryRun(def: WorkflowDefinition, rank: string -> nat, cap: nat, top: nat)
    requires SchemaAllowsAll(def) && Descends(def, rank, cap)
    requires forall id :: rank(id) <= top
    ensures MovesBoundedBy(def, MoveBound(def, cap, top))
  {
    var rankAt := (k: nat, id: string) => rank(id);
    forall k: nat, id, i | id in def.steps && Selectable(def.steps[id].transitions, i)
      ensures TransitionDescends(def, rankAt, cap, k, id, def.steps[id].transitions[i])
    {
      var t := def.steps[id].transitions[i];
      assert SchemaAllows(t);
      LiveBranchesExactly(t, BranchAt(t, k));
      assert BranchDescends(def, rank, cap, id, t, BranchAt(t, k));
    }
    RankBoundsEveryRun(def, rankAt, cap, top);
  }

  // ---------------------------------------------------------------------------
  // Workflows whose loops are all counted the same way
  // ---------------------------------------------------------------------------

  /** No `afterIteration`, and exhausted loops end the run. */
  ghost predicate PlainLoops(def: WorkflowDefinition) {
    forall id, i :: id in def.steps && 0 <= i < |def.steps[id].transitions| ==>
      PlainTransition(def.steps[id].transitions[i])
  }

  predicate PlainTransition(t: Transition) {
    t.afterIteration.None? && IsTerminalState(t.onMaxIterations.GetOr(TERMINAL_BLOCKED))
  }

  lemma PlainMove(def: WorkflowDefinition, s: SimState, input: StepResult, n: SimState)
    requires PlainLoops(def) && WellFormed(s) && Moves(def, s, input, n)
    ensures WellFormed(n)
    ensures if n.currentStepId in s.visitedSteps
            then n.iteration == s.iteration + 1 && |n.visitedSteps| == |s.visitedSteps|
            else n.iteration == s.iteration && |n.visitedSteps| == |s.visitedSteps| + 1
  {
    var i := MoveShape(def, s, input, n);
    var t := def.steps[s.currentStepId].transitions[i];
    assert PlainTransition(t);
  }

  /** Every move is paid for by one iteration or by one newly visited step, never by both. */
  lemma {:induction false} MoveAccounting(def: WorkflowDefinition, s: SimState, inputs: seq<StepResult>)
    requires PlainLoops(def) && WellFormed(s)
    ensures var end := Run(def, s, inputs);
            && s.iteration <= end.state.iteration
            && |Elements(s.visitedSteps)| <= |Elements(end.state.visitedSteps)|
            && end.moves == (end.state.iteration - s.iteration)
                            + (|Elements(end.state.visitedSteps)| - |Elements(s.visitedSteps)|)
    decreases |inputs|
  {
    if inputs != [] && EvaluateStep(def, s, inputs[0]).Ok? {
      var next := EvaluateStep(def, s, inputs[0]).value.nextState;
      if next.Some? {
        PlainMove(def, s, inputs[0], next.value);
        MoveAccounting(def, next.value, inputs[1..]);
        NoDuplicatesSize(s.visitedSteps);
        NoDuplicatesSize(next.value.visitedSteps);
      }
    }
  }

  // ---------------------------------------------------------------------------
  // Exactly which workflows end
  // ---------------------------------------------------------------------------

  /** From `k` iterations on the transition always takes the same branch. */
  predicate SettledAt(t: Transition, k: nat) {
    t.maxIterations.GetOr(0) <= k && t.afterIteration.GetOr(0) <= k
  }

  /** Taken at iteration `k`: for good, or without ever raising the counter. */
  ghost predicate IsEndlessEdge(transitions: seq<Transition>, i: int, k: nat, late: bool, v: string) {
    && Selectable(transitions, i)
    && var t := transitions[i];
       && BranchTarget(t, BranchAt(t, k)) == v
       && if late then SettledAt(t, k) else !CountsLoops(t, BranchAt(t, k))
  }

  ghost predicate EndlessEdge(def: WorkflowDefinition, k: nat, late: bool, u: string, v: string) {
    && u in def.steps && v in def.steps && !IsTerminalState(v)
    && exists i :: IsEndlessEdge(def.steps[u].transitions, i, k, late, v)
  }

  ghost predicate EndlessPath(def: WorkflowDefinition, k: nat, late: bool, p: seq<string>) {
    p != [] && forall j :: 0 <= j < |p| - 1 ==> EndlessEdge(def, k, late, p[j], p[j + 1])
  }

  ghost predicate EndlessCycle(def: WorkflowDefinition, k: nat, late: bool, p: seq<string>) {
    EndlessPath(def, k, late, p) && |p| >= 2 && p[0] == Last(p)
  }

  ghost predicate HasEndlessCycle(def: WorkflowDefinition) {
    exists k: nat, late, p :: EndlessCycle(def, k, late, p)
  }

  // Such a cycle can be walked for ever.

  ghost predicate StandsOn(s: SimState, k: nat, late: bool) {
    WellFormed(s) && if late then s.iteration >= k else s.iteration == k
  }

  lemma EndlessEdgeMoves(def: WorkflowDefinition, s: SimState, k: nat, late: bool, v: string)
      returns (input: StepResult, n: SimState)
    requires StandsOn(s, k, late) && EndlessEdge(def, k, late, s.currentStepId, v)
    ensures Moves(def, s, input, n) && StandsOn(n, k, late) && n.currentStepId == v
  {
    var transitions := def.steps[s.currentStepId].transitions;
    var i :| IsEndlessEdge(transitions, i, k, late, v);
    PickSelectable(transitions, i);
    input := SelectingResult(transitions[i].condition);
    ResolveTransitionByBranch(transitions[i], def.steps, IterationContext(s.iteration, s.visitedSteps));
    n := EvaluateStep(def, s, input).value.nextState.value;
    VisitedStepsKeepForm(s.visitedSteps, v);
  }

  lemma {:induction false} CycleRuns(
    def: WorkflowDefinition, k: nat, late: bool, p: seq<string>, pos: nat, s: SimState, n: nat)
      returns (inputs: seq<StepResult>)
    requires EndlessCycle(def, k, late, p)
    requires pos < |p| - 1 && StandsOn(s, k, late) && s.currentStepId == p[pos]
    ensures Run(def, s, inputs).moves == n
    decreases n
  {
    if n == 0 {
      inputs := [];
    } else {
      var input, next := EndlessEdgeMoves(def, s, k, late, p[pos + 1]);
      var rest := CycleRuns(def, k, late, p, if pos + 1 == |p| - 1 then 0 else pos + 1, next, n - 1);
      inputs := [input] + rest;
    }
  }

  /** The run arrives at the start of an endless cycle, with a counter that keeps it there. */
  ghost predicate Arrives(
    def: WorkflowDefinition, s: SimState, inputs: seq<StepResult>, k: nat, late: bool, p: seq<string>)
  {
    && EndlessCycle(def, k, late, p)
    && var end := Run(def, s, inputs);
       end.status == Running && StandsOn(end.state, k, late) && end.state.currentStepId == p[0]
  }

  ghost predicate ReachesEndlessCycle(def: WorkflowDefinition, s: SimState) {
    exists inputs, k: nat, late, p :: Arrives(def, s, inputs, k, late, p)
  }

  lemma {:induction false} RunGoesOn(def: WorkflowDefinition, s: SimState, a: seq<StepResult>, b: seq<StepResult>)
    requires Run(def, s, a).status == Running
    ensures var rest := Run(def, Run(def, s, a).state, b);
            Run(def, s, a + b) == rest.(moves := Run(def, s, a).moves + rest.moves)
    decreases |a|
  {
    if a == [] {
      assert a + b == b;
    } else {
      var n := EvaluateStep(def, s, a[0]).value.nextState.value;
      RunGoesOn(def, n, a[1..], b);
      assert (a + b)[0] == a[0] && (a + b)[1..] == a[1..] + b;
    }
  }

  lemma ReachedLater(def: WorkflowDefinition, s: SimState, inputs: seq<StepResult>)
    requires Run(def, s, inputs).status == Running && ReachesEndlessCycle(def, Run(def, s, inputs).state)
    ensures ReachesEndlessCycle(def, s)
  {
    var more, k: nat, late, p :| Arrives(def, Run(def, s, inputs).state, more, k, late, p);
    RunGoesOn(def, s, inputs, more);
    assert Arrives(def, s, inputs + more, k, late, p);
  }

  lemma ReachedCycleIsThere(def: WorkflowDefinition, s: SimState)
    requires ReachesEndlessCycle(def, s)
    ensures HasEndlessCycle(def)
  {
    var inputs, k: nat, late, p :| Arrives(def, s, inputs, k, late, p);
  }

  lemma ReachedCycleDefeatsEveryBound(def: WorkflowDefinition, s: SimState, bound: nat)
    requires ReachesEndlessCycle(def, s)
    ensures !RunsBoundedBy(def, s, bound)
  {
    var inputs, k: nat, late, p :| Arrives(def, s, inputs, k, late, p);
    var rounds := CycleRuns(def, k, late, p, 0, Run(def, s, inputs).state, bound + 1);
    RunGoesOn(def, s, inputs, rounds);
    assert Run(def, s, inputs + rounds).moves > bound;
  }

  // Where none is reached, the lengths of the longest endless paths are a rank.

  ghost predicate PathFrom(def: WorkflowDefinition, k: nat, late: bool, u: string, length: nat)
    decreases length
  {
    length == 0 || exists v :: EndlessEdge(def, k, late, u, v) && PathFrom(def, k, late, v, length - 1)
  }

  ghost function LongestPath(def: WorkflowDefinition, k: nat, late: bool, u: string, n: nat): (r: nat)
    ensures r <= n && PathFrom(def, k, late, u, r)
    ensures forall length: nat :: r < length <= n ==> !PathFrom(def, k, late, u, length)
  {
    if n == 0 || PathFrom(def, k, late, u, n) then n else LongestPath(def, k, late, u, n - 1)
  }

  lemma {:induction false} WalkPath(def: WorkflowDefinition, k: nat, late: bool, u: string, length: nat)
      returns (p: seq<string>)
    requires PathFrom(def, k, late, u, length) && u in def.steps
    ensures EndlessPath(def, k, late, p) && |p| == length + 1 && p[0] == u
    ensures Elements(p) <= def.steps.Keys
    decreases length
  {
    if length == 0 {
      p := [u];
    } else {
      var v :| EndlessEdge(def, k, late, u, v) && PathFrom(def, k, late, v, length - 1);
      var rest := WalkPath(def, k, late, v, length - 1);
      p := [u] + rest;
    }
  }

  lemma PathTail(def: WorkflowDefinition, k: nat, late: bool, p: seq<string>)
    requires EndlessPath(def, k, late, p) && |p| > 1
    ensures EndlessEdge(def, k, late, p[0], p[1]) && EndlessPath(def, k, late, p[1..])
  {
    assert EndlessEdge(def, k, late, p[0], p[0 + 1]);
    forall j | 0 <= j < |p| - 2 ensures EndlessEdge(def, k, late, p[1..][j], p[1..][j + 1]) {
      assert EndlessEdge(def, k, late, p[j + 1], p[j + 1 + 1]);
    }
  }

  lemma {:induction false} PathRuns(
    def: WorkflowDefinition, k: nat, late: bool, p: seq<string>, i: nat, s: SimState)
      returns (inputs: seq<StepResult>)
    requires EndlessPath(def, k, late, p) && i < |p| && StandsOn(s, k, late) && s.currentStepId == p[0]
    ensures var end := Run(def, s, inputs);
            end.status == Running && StandsOn(end.state, k, late) && end.state.currentStepId == p[i]
    decreases i
  {
    if i == 0 {
      inputs := [];
    } else {
      PathTail(def, k, late, p);
      var input, n := EndlessEdgeMoves(def, s, k, late, p[1]);
      var rest := PathRuns(def, k, late, p[1..], i - 1, n);
      inputs := [input] + rest;
    }
  }

  /** A path longer than the number of steps runs into a cycle. */
  lemma LongPathArrives(def: WorkflowDefinition, k: nat, late: bool, s: SimState)
    requires StandsOn(s, k, late) && s.currentStepId in def.steps
    requires PathFrom(def, k, late, s.currentStepId, |def.steps|)
    ensures ReachesEndlessCycle(def, s)
  {
    var p := WalkPath(def, k, late, s.currentStepId, |def.steps|);
    assert |def.steps.Keys| == |def.steps|;
    var i, j := Pigeonhole(p, def.steps.Keys);
    var cycle := p[i..j + 1];
    assert EndlessCycle(def, k, late, cycle);
    var inputs := PathRuns(def, k, late, p, i, s);
    assert Arrives(def, s, inputs, k, late, cycle);
  }

  lemma LongestPathFalls(def: WorkflowDefinition, k: nat, late: bool, s: SimState, v: string)
    requires StandsOn(s, k, late) && EndlessEdge(def, k, late, s.currentStepId, v) && !ReachesEndlessCycle(def, s)
    ensures LongestPath(def, k, late, v, |def.steps|) < LongestPath(def, k, late, s.currentStepId, |def.steps|)
  {
    var length := LongestPath(def, k, late, v, |def.steps|);
    assert PathFrom(def, k, late, s.currentStepId, length + 1);
    if length == |def.steps| {
      var input, n := EndlessEdgeMoves(def, s, k, late, v);
      LongPathArrives(def, k, late, n);
      assert Run(def, s, [input]).state == Run(def, n, []).state;
      ReachedLater(def, s, [input]);
    }
  }

  /** Below `cap` the paths that raise no counter, from there on all paths. */
  ghost function PathRank(def: WorkflowDefinition, cap: nat): (nat, string) -> nat {
    (k: nat, id: string) => if k < cap then LongestPath(def, k, false, id, |def.steps|)
               else LongestPath(def, cap, true, id, |def.steps|)
  }

  ghost predicate AllSettledAt(def: WorkflowDefinition, cap: nat) {
    forall id, i :: id in def.steps && 0 <= i < |def.steps[id].transitions| ==>
      SettledAt(def.steps[id].transitions[i], cap)
  }

  lemma PathRankDescendsHere(def: WorkflowDefinition, cap: nat, s: SimState)
    requires WellFormed(s) && !ReachesEndlessCycle(def, s) && AllSettledAt(def, cap)
    ensures DescendsHere(def, PathRank(def, cap), cap, s)
  {
    var rank, k, id := PathRank(def, cap), s.iteration, s.currentStepId;
    if id in def.steps {
      forall i | Selectable(def.steps[id].transitions, i)
        ensures TransitionDescends(def, rank, cap, k, id, def.steps[id].transitions[i])
      {
        var t := def.steps[id].transitions[i];
        assert SettledAt(t, cap);
        var target := BranchTarget(t, BranchAt(t, k));
        if target in def.steps && !IsTerminalState(target) && (k < cap ==> !CountsLoops(t, BranchAt(t, k))) {
          var at := if k < cap then k else cap;
          assert IsEndlessEdge(def.steps[id].transitions, i, at, k >= cap, target);
          LongestPathFalls(def, at, k >= cap, s, target);
        }
      }
    }
  }

  lemma PathRankDescends(def: WorkflowDefinition, cap: nat, s: SimState)
    requires WellFormed(s) && !ReachesEndlessCycle(def, s) && AllSettledAt(def, cap)
    ensures DescendsFrom(def, PathRank(def, cap), cap, s)
  {
    forall inputs, end | LeadsTo(def, s, inputs, end) ensures DescendsHere(def, PathRank(def, cap), cap, end) {
      RunKeepsForm(def, s, inputs);
      if ReachesEndlessCycle(def, end) {
        ReachedLater(def, s, inputs);
      }
      PathRankDescendsHere(def, cap, end);
    }
  }

  lemma PathRankFits(def: WorkflowDefinition, cap: nat)
    ensures Steady(PathRank(def, cap), cap)
    ensures forall k: nat, id :: PathRank(def, cap)(k, id) <= |def.steps|
  {
    forall k: nat, id: string ensures PathRank(def, cap)(k, id) <= |def.steps| {
      var longest := if k < cap then LongestPath(def, k, false, id, |def.steps|)
                     else LongestPath(def, cap, true, id, |def.steps|);
      assert longest <= |def.steps|;
    }
  }

  lemma LargestThreshold(def: WorkflowDefinition) returns (cap: nat)
    ensures AllSettledAt(def, cap)
  {
    var caps: set<nat> := set id, i | id in def.steps && 0 <= i < |def.steps[id].transitions| ::
        def.steps[id].transitions[i].maxIterations.GetOr(0);
    var afters: set<nat> := set id, i | id in def.steps && 0 <= i < |def.steps[id].transitions| ::
        def.steps[id].transitions[i].afterIteration.GetOr(0);
    cap := UpperBound(caps + afters);
    forall id, i | id in def.steps && 0 <= i < |def.steps[id].transitions|
      ensures SettledAt(def.steps[id].transitions[i], cap)
    {
      assert def.steps[id].transitions[i].maxIterations.GetOr(0) in caps + afters;
      assert def.steps[id].transitions[i].afterIteration.GetOr(0) in caps + afters;
    }
  }

  lemma UnreachedRunsAreBounded(def: WorkflowDefinition, cap: nat, s: SimState)
    requires WellFormed(s) && !ReachesEndlessCycle(def, s) && AllSettledAt(def, cap)
    ensures RunsBoundedBy(def, s, MoveBound(def, cap, |def.steps|))
  {
    PathRankDescends(def, cap, s);
    PathRankFits(def, cap);
    RankBoundsRuns(def, s, PathRank(def, cap), cap, |def.steps|);
  }

  /**
   The runs from a state are bounded exactly when none of them arrives at a cycle of the step graph that
   can be walked at its counter either without raising it, or past every threshold of its transitions.
   */
  lemma TerminatesFromExactly(def: WorkflowDefinition, s: SimState)
    requires WellFormed(s)
    ensures (exists bound :: RunsBoundedBy(def, s, bound)) <==> !ReachesEndlessCycle(def, s)
  {
    if ReachesEndlessCycle(def, s) {
      forall bound ensures !RunsBoundedBy(def, s, bound) {
        ReachedCycleDefeatsEveryBound(def, s, bound);
      }
    } else {
      var cap := LargestThreshold(def);
      UnreachedRunsAreBounded(def, cap, s);
    }
  }

  /** A workflow ends from its fresh start exactly when no run from there arrives at such a cycle. */
  lemma FreshRunsTerminateExactly(def: WorkflowDefinition)
    requires def.initialStep in def.steps
    ensures var initial := StartAt(def.steps[def.initialStep].id);
            (exists bound :: RunsBoundedBy(def, initial, bound)) <==> !ReachesEndlessCycle(def, initial)
  {
    TerminatesFromExactly(def, StartAt(def.steps[def.initialStep].id));
  }

  /** From all states at once: exactly when the step graph has no such cycle at all. */
  lemma TerminatesExactly(def: WorkflowDefinition)
    ensures (exists bound :: MovesBoundedBy(def, bound)) <==> !HasEndlessCycle(def)
  {
    if k: nat, late, p :| EndlessCycle(def, k, late, p) {
      var start := SimState(p[0], k, [p[0]]);
      assert Arrives(def, start, [], k, late, p);
      forall bound ensures !MovesBoundedBy(def, bound) {
        ReachedCycleDefeatsEveryBound(def, start, bound);
      }
    } else {
      var cap := LargestThreshold(def);
      forall s | WellFormed(s) ensures RunsBoundedBy(def, s, MoveBound(def, cap, |def.steps|)) {
        if ReachesEndlessCycle(def, s) {
          ReachedCycleIsThere(def, s);
        }
        UnreachedRunsAreBounded(def, cap, s);
      }
      assert MovesBoundedBy(def, MoveBound(def, cap, |def.steps|));
    }
  }

  // Where all loops are plain, only the transitions without `maxIterations` matter.

  ghost predicate IsUncappedEdge(transitions: seq<Transition>, i: int, v: string) {
    Selectable(transitions, i) && transitions[i].maxIterations.None? && transitions[i].target == v
  }

  ghost predicate UncappedEdge(def: WorkflowDefinition, u: string, v: string) {
    && u in def.steps && v in def.steps && !IsTerminalState(v)
    && exists i :: IsUncappedEdge(def.steps[u].transitions, i, v)
  }

  ghost predicate UncappedCycle(def: WorkflowDefinition, p: seq<string>) {
    |p| >= 2 && p[0] == Last(p) && forall j :: 0 <= j < |p| - 1 ==> UncappedEdge(def, p[j], p[j + 1])
  }

  lemma PlainEndlessEdges(def: WorkflowDefinition, k: nat, late: bool, u: string, v: string)
    requires PlainLoops(def)
    ensures EndlessEdge(def, k, late, u, v) ==> UncappedEdge(def, u, v)
    ensures UncappedEdge(def, u, v) ==> EndlessEdge(def, 0, true, u, v)
  {
    if EndlessEdge(def, k, late, u, v) {
      var i :| IsEndlessEdge(def.steps[u].transitions, i, k, late, v);
      assert PlainTransition(def.steps[u].transitions[i]);
      assert IsUncappedEdge(def.steps[u].transitions, i, v);
    }
    if UncappedEdge(def, u, v) {
      var i :| IsUncappedEdge(def.steps[u].transitions, i, v);
      assert PlainTransition(def.steps[u].transitions[i]);
      assert IsEndlessEdge(def.steps[u].transitions, i, 0, true, v);
    }
  }

  /** Without `afterIteration`, and with terminal `onMaxIterations`: no cycle may lack a `maxIterations`. */
  lemma PlainLoopsTerminateExactly(def: WorkflowDefinition)
    requires PlainLoops(def)
    ensures (exists bound :: MovesBoundedBy(def, bound)) <==> !exists p :: UncappedCycle(def, p)
  {
    TerminatesExactly(def);
    if p :| UncappedCycle(def, p) {
      forall j | 0 <= j < |p| - 1 ensures EndlessEdge(def, 0, true, p[j], p[j + 1]) {
        PlainEndlessEdges(def, 0, true, p[j], p[j + 1]);
      }
      assert EndlessCycle(def, 0, true, p);
    }
    if k: nat, late, p :| EndlessCycle(def, k, late, p) {
      forall j | 0 <= j < |p| - 1 ensures UncappedEdge(def, p[j], p[j + 1]) {
        PlainEndlessEdges(def, k, late, p[j], p[j + 1]);
      }
      assert UncappedCycle(def, p);
    }
  }

  /** The `iterate` step that opens the shipped default workflow. */
  const ITERATE_STEP := WorkflowStep("iterate", "iterate", [
      Transition("CHUNK_DONE", "iterate", None, None, None, None),
      Transition("__none__", "iterate", None, None, None, None),
      Transition("ALL_TASKS_DONE", "run-tests", None, None, None, None),
      Transition("failure", "__blocked__", None, None, None, None)])

  /** A workflow that starts with that step can stay in it for ever: the shipped default does not end. */
  lemma IterateStepLoops(def: WorkflowDefinition)
    requires def.initialStep == "iterate" && "iterate" in def.steps && def.steps["iterate"] == ITERATE_STEP
    ensures forall bound :: !RunsBoundedBy(def, StartAt(def.steps[def.initialStep].id), bound)
  {
    assert IsEndlessEdge(ITERATE_STEP.transitions, 0, 0, true, "iterate");
    assert EndlessEdge(def, 0, true, "iterate", "iterate");
    assert Arrives(def, StartAt("iterate"), [], 0, true, ["iterate", "iterate"]);
    FreshRunsTerminateExactly(def);
  }
}
