/**
 The workflow engine: the step graph accepted by `workflow-parser.ts` and the
 transition function of `workflow-state-machine.ts`.
 */
module WorkflowEngine {
  import opened Collections

  const TERMINAL_SUCCESS := "__done__"
  const TERMINAL_BLOCKED := "__blocked__"
  const TERMINAL_PAUSED := "__paused__"
  const CONDITION_SUCCESS := "success"
  const CONDITION_FAILURE := "failure"
  const CONDITION_NONE := "__none__"

  datatype Transition = Transition(
    condition: string,
    target: string,
    maxIterations: Option<nat>,
    onMaxIterations: Option<string>,
    afterIteration: Option<nat>,
    thenTarget: Option<string>)

  datatype WorkflowStep = WorkflowStep(id: string, stepType: string, transitions: seq<Transition>)

  datatype WorkflowDefinition = WorkflowDefinition(
    name: string,
    initialStep: string,
    steps: map<string, WorkflowStep>)

  datatype StepOutcome = Success | Failure

  datatype StepResult = StepResult(status: StepOutcome, signal: Option<string>)

  datatype IterationContext = IterationContext(iteration: nat, visitedSteps: seq<string>)

  datatype TransitionResult =
    | Done
    | Paused
    | Blocked
    | Goto(stepId: string, step: WorkflowStep, shouldIncrementIteration: bool)

  datatype EngineError =
    | StepNotFound(stepId: string)
    | TargetStepNotFound(target: string)
    | InitialStepNotFound(stepId: string)

  predicate IsTerminalState(target: string) {
    target == TERMINAL_SUCCESS || target == TERMINAL_BLOCKED || target == TERMINAL_PAUSED
  }

  // ---------------------------------------------------------------------------
  // Validation
  // ---------------------------------------------------------------------------

  datatype TargetField = TransitionField | OnMaxIterationsField | ThenTargetField

  datatype ParseError =
    | UnknownInitialStep(stepId: string)
    | UnknownTarget(stepId: string, field: TargetField, target: string)

  predicate IsValidTarget(target: string, steps: map<string, WorkflowStep>) {
    IsTerminalState(target) || target in steps
  }

  /** Empty strings are falsy, so the validator lets them through. */
  predicate PassesTargetCheck(target: Option<string>, steps: map<string, WorkflowStep>) {
    target.None? || target.value == "" || IsValidTarget(target.value, steps)
  }

  predicate PassesTransitionCheck(t: Transition, steps: map<string, WorkflowStep>) {
    && PassesTargetCheck(Some(t.target), steps)
    && PassesTargetCheck(t.onMaxIterations, steps)
    && PassesTargetCheck(t.thenTarget, steps)
  }

  /** What the schema demands of a transition: `maxIterations` is positive. */
  predicate SchemaAllows(t: Transition) {
    t.maxIterations.Some? ==> 0 < t.maxIterations.value
  }

  /** The definitions that `validateAndParseWorkflow` accepts. */
  ghost predicate Accepted(def: WorkflowDefinition) {
    && def.initialStep in def.steps
    && forall id, i :: id in def.steps && 0 <= i < |def.steps[id].transitions| ==>
         SchemaAllows(def.steps[id].transitions[i])
         && PassesTransitionCheck(def.steps[id].transitions[i], def.steps)
  }

  function FieldOf(t: Transition, field: TargetField): Option<string> {
    match field
    case TransitionField => Some(t.target)
    case OnMaxIterationsField => t.onMaxIterations
    case ThenTargetField => t.thenTarget
  }

  method ValidateTransition(stepId: string, t: Transition, steps: map<string, WorkflowStep>)
      returns (r: Result<(), ParseError>)
    ensures r.Ok? <==> PassesTransitionCheck(t, steps)
    ensures r.Err? ==>
      && r.error.UnknownTarget? && r.error.stepId == stepId
      && FieldOf(t, r.error.field) == Some(r.error.target)
      && r.error.target != "" && !IsValidTarget(r.error.target, steps)
  {
    if !PassesTargetCheck(Some(t.target), steps) {
      return Err(UnknownTarget(stepId, TransitionField, t.target));
    }
    if !PassesTargetCheck(t.onMaxIterations, steps) {
      return Err(UnknownTarget(stepId, OnMaxIterationsField, t.onMaxIterations.value));
    }
    if !PassesTargetCheck(t.thenTarget, steps) {
      return Err(UnknownTarget(stepId, ThenTargetField, t.thenTarget.value));
    }
    return Ok(());
  }

  /** The nested loops that stop at the first dangling target. */
  method ValidateWorkflowStructure(def: WorkflowDefinition) returns (r: Result<(), ParseError>)
    requires forall id, i :: id in def.steps && 0 <= i < |def.steps[id].transitions| ==>
               SchemaAllows(def.steps[id].transitions[i])
    ensures r.Ok? <==> Accepted(def)
    ensures r.Err? && r.error.UnknownInitialStep? ==> r.error.stepId == def.initialStep && def.initialStep !in def.steps
    ensures r.Err? && r.error.UnknownTarget? ==>
      && r.error.stepId in def.steps
      && r.error.target != "" && !IsValidTarget(r.error.target, def.steps)
      && exists t :: t in def.steps[r.error.stepId].transitions
                     && FieldOf(t, r.error.field) == Some(r.error.target)
  {
    if def.initialStep !in def.steps {
      return Err(UnknownInitialStep(def.initialStep));
    }
    var todo := def.steps.Keys;
    while todo != {}
      invariant todo <= def.steps.Keys
      invariant forall id, i :: id in def.steps && id !in todo && 0 <= i < |def.steps[id].transitions| ==>
                  PassesTransitionCheck(def.steps[id].transitions[i], def.steps)
      decreases todo
    {
      var stepId :| stepId in todo;
      var transitions := def.steps[stepId].transitions;
      for k := 0 to |transitions|
        invariant forall i :: 0 <= i < k ==> PassesTransitionCheck(transitions[i], def.steps)
      {
        var checked := ValidateTransition(stepId, transitions[k], def.steps);
        if checked.Err? {
          assert transitions[k] in def.steps[stepId].transitions;
          return checked;
        }
      }
      todo := todo - {stepId};
    }
    return Ok(());
  }

  // ---------------------------------------------------------------------------
  // Transitions
  // ---------------------------------------------------------------------------

  function ResolveTarget(target: string, steps: map<string, WorkflowStep>)
    : Result<TransitionResult, EngineError>
  {
    if target == TERMINAL_SUCCESS then Ok(Done)
    else if target == TERMINAL_BLOCKED then Ok(Blocked)
    else if target == TERMINAL_PAUSED then Ok(Paused)
    else if target !in steps then Err(TargetStepNotFound(target))
    else Ok(Goto(target, steps[target], false))
  }

  predicate IsLoopingBack(result: TransitionResult, visitedSteps: seq<string>) {
    result.Goto? && result.stepId in visitedSteps
  }

  function WithIterationFlag(result: TransitionResult, shouldIncrement: bool): TransitionResult {
    if shouldIncrement && result.Goto? then result.(shouldIncrementIteration := true) else result
  }

  function ResolveTransition(
    t: Transition, steps: map<string, WorkflowStep>, context: IterationContext)
    : Result<TransitionResult, EngineError>
  {
    if t.maxIterations.Some? && context.iteration >= t.maxIterations.value then
      ResolveTarget(t.onMaxIterations.GetOr(TERMINAL_BLOCKED), steps)
    else if t.afterIteration.Some? && t.thenTarget.Some? && context.iteration >= t.afterIteration.value then
      match ResolveTarget(t.thenTarget.value, steps)
      case Err(e) => Err(e)
      case Ok(result) => Ok(WithIterationFlag(result, IsLoopingBack(result, context.visitedSteps)))
    else
      match ResolveTarget(t.target, steps)
      case Err(e) => Err(e)
      case Ok(result) =>
        Ok(WithIterationFlag(result, t.afterIteration.None? && IsLoopingBack(result, context.visitedSteps)))
  }

  /** `transitions.find((t) => t.condition === condition)`. */
  function FindCondition(transitions: seq<Transition>, condition: string): Option<Transition> {
    if transitions == [] then None
    else if transitions[0].condition == condition then Some(transitions[0])
    else FindCondition(transitions[1..], condition)
  }

  predicate IsFirst(transitions: seq<Transition>, condition: string, i: int) {
    && 0 <= i < |transitions|
    && transitions[i].condition == condition
    && forall j :: 0 <= j < i ==> transitions[j].condition != condition
  }

  /** The search finds the first match, and finds one whenever there is one. */
  lemma {:induction false} FindConditionIsFirst(transitions: seq<Transition>, condition: string, t: Transition)
    ensures FindCondition(transitions, condition) == Some(t)
       <==> exists i :: IsFirst(transitions, condition, i) && transitions[i] == t
  {
    if transitions != [] {
      if transitions[0].condition == condition {
        assert IsFirst(transitions, condition, 0);
      } else {
        FindConditionIsFirst(transitions[1..], condition, t);
        if i :| IsFirst(transitions[1..], condition, i) && transitions[1..][i] == t {
          assert IsFirst(transitions, condition, i + 1);
        }
        if i :| IsFirst(transitions, condition, i) && transitions[i] == t {
          assert IsFirst(transitions[1..], condition, i - 1);
        }
      }
    }
  }

  /** A failure outranks any signal; a signal outranks `__none__`; the status comes last. */
  function FindMatchingTransition(transitions: seq<Transition>, result: StepResult): Option<Transition> {
    if result.status == Failure then
      FindCondition(transitions, CONDITION_FAILURE)
    else
      var hasSignal := result.signal.Some? && result.signal.value != "";
      var preferred := FindCondition(transitions, if hasSignal then result.signal.value else CONDITION_NONE);
      if preferred.Some? then preferred else FindCondition(transitions, CONDITION_SUCCESS)
  }

  /** The conditions that a result is matched against, best first. */
  function Preferences(result: StepResult): seq<string> {
    if result.status == Failure then ["failure"]
    else if result.signal == None || result.signal == Some("") then ["__none__", "success"]
    else [result.signal.value, "success"]
  }

  ghost predicate Matches(transitions: seq<Transition>, result: StepResult, p: nat, i: int) {
    && p < |Preferences(result)|
    && IsFirst(transitions, Preferences(result)[p], i)
    && forall q, j :: 0 <= q < p && 0 <= j < |transitions| ==> transitions[j].condition != Preferences(result)[q]
  }

  /** The picked transition is the first one of the best condition that has any. */
  lemma PickedByPreference(transitions: seq<Transition>, result: StepResult, t: Transition)
    ensures FindMatchingTransition(transitions, result) == Some(t)
       <==> exists p: nat, i :: Matches(transitions, result, p, i) && transitions[i] == t
  {
    var preferences := Preferences(result);
    NothingFoundExactly(transitions, preferences[0]);
    FindConditionIsFirst(transitions, preferences[0], t);
    if i :| IsFirst(transitions, preferences[0], i) && transitions[i] == t {
      assert Matches(transitions, result, 0, i);
    }
    if result.status == Success {
      FindConditionIsFirst(transitions, preferences[1], t);
      if i :| IsFirst(transitions, preferences[1], i) && transitions[i] == t
              && FindCondition(transitions, preferences[0]).None? {
        assert Matches(transitions, result, 1, i);
      }
    }
  }

  lemma {:induction false} NothingFoundExactly(transitions: seq<Transition>, condition: string)
    ensures FindCondition(transitions, condition).None?
       <==> forall i :: 0 <= i < |transitions| ==> transitions[i].condition != condition
  {
    if transitions != [] {
      NothingFoundExactly(transitions[1..], condition);
      assert forall i :: 0 < i < |transitions| ==> transitions[i] == transitions[1..][i - 1];
    }
  }

  function GetInitialStep(def: WorkflowDefinition): Result<WorkflowStep, EngineError> {
    if def.initialStep in def.steps then Ok(def.steps[def.initialStep])
    else Err(InitialStepNotFound(def.initialStep))
  }

  function EvaluateTransition(
    def: WorkflowDefinition, stepId: string, result: StepResult, context: IterationContext)
    : Result<TransitionResult, EngineError>
  {
    if stepId !in def.steps then Err(StepNotFound(stepId))
    else
      match FindMatchingTransition(def.steps[stepId].transitions, result)
      case None => Ok(Blocked)
      case Some(t) => ResolveTransition(t, def.steps, context)
  }

  // ---------------------------------------------------------------------------
  // Which transitions and targets are live
  // ---------------------------------------------------------------------------

  /** Transition `i` of the step is the one some result picks. */
  predicate Selectable(transitions: seq<Transition>, i: int) {
    && 0 <= i < |transitions|
    && transitions[i].condition != ""
    && IsFirst(transitions, transitions[i].condition, i)
  }

  function SelectingResult(condition: string): StepResult {
    if condition == CONDITION_FAILURE then StepResult(Failure, None)
    else StepResult(Success, Some(condition))
  }

  /** The selectable transitions are exactly the ones a step result can pick. */
  lemma SelectableIffPicked(transitions: seq<Transition>, t: Transition)
    ensures (exists r :: FindMatchingTransition(transitions, r) == Some(t))
       <==> (exists i :: Selectable(transitions, i) && transitions[i] == t)
  {
    if r :| FindMatchingTransition(transitions, r) == Some(t) {
      var _ := PickedIsSelectable(transitions, r, t);
    }
    if i :| Selectable(transitions, i) && transitions[i] == t {
      PickSelectable(transitions, i);
    }
  }

  lemma PickedIsSelectable(transitions: seq<Transition>, r: StepResult, t: Transition) returns (i: int)
    requires FindMatchingTransition(transitions, r) == Some(t)
    ensures Selectable(transitions, i) && transitions[i] == t
  {
    var condition :| FindCondition(transitions, condition) == Some(t) && condition != "";
    FindConditionIsFirst(transitions, condition, t);
    i :| IsFirst(transitions, condition, i) && transitions[i] == t;
  }

  lemma PickSelectable(transitions: seq<Transition>, i: int)
    requires Selectable(transitions, i)
    ensures FindMatchingTransition(transitions, SelectingResult(transitions[i].condition)) == Some(transitions[i])
  {
    FindConditionIsFirst(transitions, transitions[i].condition, transitions[i]);
  }

  /** Signals attached to a failed result are never looked at. */
  lemma FailureIgnoresSignal(
    def: WorkflowDefinition, stepId: string, a: StepResult, b: StepResult, context: IterationContext)
    requires a.status == Failure && b.status == Failure
    ensures EvaluateTransition(def, stepId, a, context) == EvaluateTransition(def, stepId, b, context)
  {
  }

  /** The three ways `resolveTransitionWithIteration` reads a transition. */
  datatype Branch = AtMaximum | AfterIteration | Plain

  function BranchAt(t: Transition, iteration: nat): Branch {
    if t.maxIterations.Some? && iteration >= t.maxIterations.value then AtMaximum
    else if t.afterIteration.Some? && t.thenTarget.Some? && iteration >= t.afterIteration.value then AfterIteration
    else Plain
  }

  function BranchTarget(t: Transition, branch: Branch): string {
    match branch
    case AtMaximum => t.onMaxIterations.GetOr("__blocked__")
    case AfterIteration => t.thenTarget.GetOr(t.target)
    case Plain => t.target
  }

  /** Taking this branch to a visited step raises the iteration counter. */
  predicate CountsLoops(t: Transition, branch: Branch) {
    branch == AfterIteration || (branch == Plain && t.afterIteration.None?)
  }

  /** The answer for a target: an end of the run, a move to the step of that key, or an error. */
  function AnswerFor(target: string, steps: map<string, WorkflowStep>, increment: bool)
    : Result<TransitionResult, EngineError>
  {
    if target == "__done__" then Ok(Done)
    else if target == "__blocked__" then Ok(Blocked)
    else if target == "__paused__" then Ok(Paused)
    else if target in steps then Ok(Goto(target, steps[target], increment))
    else Err(TargetStepNotFound(target))
  }

  lemma ResolveTransitionByBranch(t: Transition, steps: map<string, WorkflowStep>, context: IterationContext)
    ensures var branch := BranchAt(t, context.iteration);
            var target := BranchTarget(t, branch);
            ResolveTransition(t, steps, context)
            == AnswerFor(target, steps, CountsLoops(t, branch) && target in context.visitedSteps)
  {
  }

  /** The target that counts at an iteration. */
  function EffectiveTarget(t: Transition, iteration: nat): string {
    if t.maxIterations.Some? && t.maxIterations.value <= iteration then
      if t.onMaxIterations.Some? then t.onMaxIterations.value else "__blocked__"
    else if t.afterIteration.Some? && t.thenTarget.Some? && t.afterIteration.value <= iteration then t.thenTarget.value
    else t.target
  }

  lemma EffectiveTargetIsBranchTarget(t: Transition, iteration: nat)
    ensures EffectiveTarget(t, iteration) == BranchTarget(t, BranchAt(t, iteration))
  {
  }

  /**
   What a result leads to from a step: without a matching transition the run is blocked; otherwise the
   matching one's target at this iteration ends the run as its name says, or is the next step.
   */
  lemma EvaluatedExactly(
    def: WorkflowDefinition, stepId: string, result: StepResult, context: IterationContext, p: nat, i: int)
    requires stepId in def.steps
    ensures var transitions := def.steps[stepId].transitions;
            var answer := EvaluateTransition(def, stepId, result, context);
            && ((forall q: nat, j :: !Matches(transitions, result, q, j)) ==> answer == Ok(Blocked))
            && (Matches(transitions, result, p, i) ==>
                  var target := EffectiveTarget(transitions[i], context.iteration);
                  && (target == "__done__" ==> answer == Ok(Done))
                  && (target == "__blocked__" ==> answer == Ok(Blocked))
                  && (target == "__paused__" ==> answer == Ok(Paused))
                  && (target !in {"__done__", "__blocked__", "__paused__"} && target !in def.steps ==>
                        answer == Err(TargetStepNotFound(target)))
                  && (target !in {"__done__", "__blocked__", "__paused__"} && target in def.steps ==>
                        answer.Ok? && answer.value.Goto?
                        && answer.value.stepId == target && answer.value.step == def.steps[target]))
  {
    var transitions := def.steps[stepId].transitions;
    var picked := FindMatchingTransition(transitions, result);
    if picked.Some? {
      PickedByPreference(transitions, result, picked.value);
      ResolveTransitionByBranch(picked.value, def.steps, context);
      EffectiveTargetIsBranchTarget(picked.value, context.iteration);
    }
    if Matches(transitions, result, p, i) {
      PickedByPreference(transitions, result, transitions[i]);
    }
  }

  /** A reached `maxIterations` without `onMaxIterations` blocks. */
  lemma ExhaustedLoopBlocks(
    def: WorkflowDefinition, stepId: string, result: StepResult, context: IterationContext, p: nat, i: int)
    requires stepId in def.steps && Matches(def.steps[stepId].transitions, result, p, i)
    requires var t := def.steps[stepId].transitions[i];
             t.maxIterations.Some? && context.iteration >= t.maxIterations.value && t.onMaxIterations.None?
    ensures EvaluateTransition(def, stepId, result, context) == Ok(Blocked)
  {
    EvaluatedExactly(def, stepId, result, context, p, i);
  }

  /** The branches of `t` that some iteration count reaches. */
  function LiveBranches(t: Transition): set<Branch> {
    var switches := t.afterIteration.Some? && t.thenTarget.Some?;
    (if t.maxIterations.Some? then {AtMaximum} else {})
    + (if switches && (t.maxIterations.Some? ==> t.afterIteration.value < t.maxIterations.value)
       then {AfterIteration} else {})
    + (if switches && t.afterIteration.value == 0 then {} else {Plain})
  }

  lemma LiveBranchesExactly(t: Transition, branch: Branch)
    requires SchemaAllows(t)
    ensures branch in LiveBranches(t) <==> exists iteration :: BranchAt(t, iteration) == branch
  {
    if branch in LiveBranches(t) {
      var iteration := match branch
        case AtMaximum => t.maxIterations.value
        case AfterIteration => t.afterIteration.value
        case Plain => 0;
      assert BranchAt(t, iteration) == branch;
    }
  }

  /** A transition resolves at every iteration count exactly when its live targets exist. */
  lemma ResolvesIffLiveTargetsExist(t: Transition, steps: map<string, WorkflowStep>)
    requires SchemaAllows(t)
    ensures (forall context :: ResolveTransition(t, steps, context).Ok?)
       <==> (forall branch :: branch in LiveBranches(t) ==> IsValidTarget(BranchTarget(t, branch), steps))
  {
    if forall context :: ResolveTransition(t, steps, context).Ok? {
      forall branch | branch in LiveBranches(t) ensures IsValidTarget(BranchTarget(t, branch), steps) {
        LiveBranchesExactly(t, branch);
        var iteration :| BranchAt(t, iteration) == branch;
        assert ResolveTransition(t, steps, IterationContext(iteration, [])).Ok?;
      }
    }
    if forall branch :: branch in LiveBranches(t) ==> IsValidTarget(BranchTarget(t, branch), steps) {
      forall context ensures ResolveTransition(t, steps, context).Ok? {
        LiveBranchesExactly(t, BranchAt(t, context.iteration));
      }
    }
  }

  /**
   The validator skips empty targets. This is the rest of the check: no step has a selectable
   transition with a live empty target, unless a step is really keyed by the empty string.
   */
  ghost predicate NoLiveEmptyTarget(def: WorkflowDefinition) {
    "" in def.steps
    || forall id, i :: id in def.steps && Selectable(def.steps[id].transitions, i) ==>
         NoEmptyLiveTarget(def.steps[id].transitions[i])
  }

  predicate NoEmptyLiveTarget(t: Transition) {
    forall branch :: branch in LiveBranches(t) ==> BranchTarget(t, branch) != ""
  }

  ghost predicate NeverRaises(def: WorkflowDefinition) {
    forall id, result, context :: id in def.steps ==> EvaluateTransition(def, id, result, context).Ok?
  }

  /** An accepted workflow never raises from a real step exactly when it has no live empty target. */
  lemma NeverRaisesExactly(def: WorkflowDefinition)
    requires Accepted(def)
    ensures NeverRaises(def) <==> NoLiveEmptyTarget(def)
  {
    if NoLiveEmptyTarget(def) {
      forall id, result, context | id in def.steps
        ensures EvaluateTransition(def, id, result, context).Ok?
      {
        var transitions := def.steps[id].transitions;
        var picked := FindMatchingTransition(transitions, result);
        if picked.Some? {
          var i := PickedIsSelectable(transitions, result, picked.value);
          assert PassesTransitionCheck(transitions[i], def.steps);
          ResolvesIffLiveTargetsExist(transitions[i], def.steps);
        }
      }
    }
    if NeverRaises(def) {
      forall id, i | id in def.steps && Selectable(def.steps[id].transitions, i)
        ensures NoEmptyLiveTarget(def.steps[id].transitions[i]) || "" in def.steps
      {
        var transitions := def.steps[id].transitions;
        PickSelectable(transitions, i);
        forall context ensures ResolveTransition(transitions[i], def.steps, context).Ok? {
          assert EvaluateTransition(def, id, SelectingResult(transitions[i].condition), context).Ok?;
        }
        ResolvesIffLiveTargetsExist(transitions[i], def.steps);
      }
    }
  }

  const EMPTY_TARGET_WORKFLOW := WorkflowDefinition(
    "empty-target", "plan",
    map["plan" := WorkflowStep("plan", "iterate", [Transition("success", "", None, None, None, None)])])

  /** The empty target is not hypothetical: this definition is accepted and then raises. */
  lemma AcceptedWorkflowCanRaise()
    ensures Accepted(EMPTY_TARGET_WORKFLOW)
    ensures EvaluateTransition(EMPTY_TARGET_WORKFLOW, "plan", StepResult(Success, None), IterationContext(0, ["plan"]))
         == Err(TargetStepNotFound(""))
  {
    var ts := EMPTY_TARGET_WORKFLOW.steps["plan"].transitions;
    assert FindCondition(ts, CONDITION_NONE).None? by {
      assert FindCondition(ts[1..], CONDITION_NONE).None?;
    }
    assert FindCondition(ts, CONDITION_SUCCESS) == Some(ts[0]);
  }
}
