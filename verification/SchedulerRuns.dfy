/**
 Whole runs of the queue: capacity is never exceeded, dependency cycles never start, and an acyclic
 queue drains, running every READY task once and after its dependencies.
 */
module SchedulerRuns {
  import opened Collections
  import opened TaskModel
  import opened Scheduler

  /** What happens to the queue's tasks; picking marks the task WORKING and gives it a worktree. */
  datatype QueueAction =
    | PickReady(worktree: string)
    | PickResuming(worktree: string)
    | Finish(taskId: string, outcome: TaskStatus)
    | HandOff(taskId: string)
    | MarkReady(taskId: string)
    | RequestResume(taskId: string)
    | Abort(taskId: string, target: TaskStatus)

  function Replace(tasks: Snapshot, id: string, status: TaskStatus, worktreePath: Option<string>): Snapshot {
    match IndexOfId(tasks, id)
    case None => tasks
    case Some(i) => tasks[i := tasks[i].(status := status, worktreePath := worktreePath)]
  }

  function MarkWorking(q: Queue, picked: Option<Task>, worktree: string): Queue {
    if picked.None? then q else q.(tasks := Replace(q.tasks, picked.value.id, Working, Some(worktree)))
  }

  /** A change of status that the task's present status allows. */
  function Change(q: Queue, id: string, from: set<TaskStatus>, to: TaskStatus): Queue {
    match Lookup(q.tasks, id)
    case None => q
    case Some(task) =>
      if task.status in from then q.(tasks := Replace(q.tasks, id, to, task.worktreePath)) else q
  }

  function Perform(q: Queue, limits: ConcurrencyLimits, action: QueueAction): Queue {
    match action
    case PickReady(worktree) => MarkWorking(q, PickNext(q, limits, Ready, Ascending), worktree)
    case PickResuming(worktree) => MarkWorking(q, PickNext(q, limits, Resuming, Descending), worktree)
    case Finish(id, outcome) =>
      if outcome in {Done, Paused, Blocked} then Change(q, id, {Working}, outcome) else q
    case HandOff(id) =>
      (match Lookup(q.tasks, id)
       case None => q
       case Some(task) => if task.status == Done then q.(tasks := Replace(q.tasks, id, Done, None)) else q)
    case MarkReady(id) => Change(q, id, {Draft, Blocked}, Ready)
    case RequestResume(id) => Change(q, id, {Paused}, Resuming)
    case Abort(id, target) =>
      if target in {Blocked, Removed}
      then Change(q, id, {Draft, Ready, Resuming, Working, Paused, Blocked}, target) else q
  }

  function PerformAll(q: Queue, limits: ConcurrencyLimits, actions: seq<QueueAction>): Queue
    decreases |actions|
  {
    if actions == [] then q else PerformAll(Perform(q, limits, actions[0]), limits, actions[1..])
  }

  // ---------------------------------------------------------------------------
  // Replacing one task
  // ---------------------------------------------------------------------------

  lemma {:induction false} CountAfterReplacement(tasks: Snapshot, i: nat, task: Task, repoId: Option<string>)
    requires i < |tasks|
    ensures CountWorking(tasks[i := task], repoId)
         == CountWorking(tasks, repoId)
            - (if IsWorkingIn(tasks[i], repoId) then 1 else 0)
            + (if IsWorkingIn(task, repoId) then 1 else 0)
  {
    if i > 0 {
      CountAfterReplacement(tasks[1..], i - 1, task, repoId);
      assert tasks[i := task][1..] == tasks[1..][i - 1 := task];
    } else {
      assert tasks[0 := task][1..] == tasks[1..];
    }
  }

  lemma CountAfterReplace(
    tasks: Snapshot, id: string, status: TaskStatus, worktreePath: Option<string>, repoId: Option<string>)
    ensures var replaced := CountWorking(Replace(tasks, id, status, worktreePath), repoId);
            var task := Lookup(tasks, id);
            && (status != Working ==> replaced <= CountWorking(tasks, repoId))
            && (task.None? ==> replaced == CountWorking(tasks, repoId))
            && (task.Some? && task.value.status != Working && status == Working ==>
                  replaced == CountWorking(tasks, repoId)
                              + if repoId.None? || repoId.value == task.value.repoId then 1 else 0)
  {
    var index := IndexOfId(tasks, id);
    if index.Some? {
      var i := index.value;
      CountAfterReplacement(tasks, i, tasks[i].(status := status, worktreePath := worktreePath), repoId);
    }
  }

  lemma ReplaceKeepsIds(tasks: Snapshot, id: string, status: TaskStatus, worktreePath: Option<string>)
    requires DistinctIds(tasks)
    ensures DistinctIds(Replace(tasks, id, status, worktreePath))
  {
  }

  /** After a replacement, every other id looks up the same task. */
  lemma {:induction false} LookupAfterReplace(
    tasks: Snapshot, id: string, status: TaskStatus, worktreePath: Option<string>, other: string)
    ensures var before := Lookup(tasks, other);
            Lookup(Replace(tasks, id, status, worktreePath), other)
            == if other == id && before.Some?
               then Some(before.value.(status := status, worktreePath := worktreePath)) else before
  {
    var replaced := Replace(tasks, id, status, worktreePath);
    var index := IndexOfId(tasks, id);
    if index.Some? {
      SameIdsSameIndex(tasks, replaced, other);
    }
  }

  lemma {:induction false} SameIdsSameIndex(a: Snapshot, b: Snapshot, id: string)
    requires |a| == |b| && forall i :: 0 <= i < |a| ==> a[i].id == b[i].id
    ensures IndexOfId(a, id) == IndexOfId(b, id)
  {
    if a != [] {
      SameIdsSameIndex(a[1..], b[1..], id);
    }
  }

  /** A change of status that the task's present one allows; every other task stays. */
  lemma ChangesExactly(q: Queue, id: string, from: set<TaskStatus>, to: TaskStatus, other: string)
    ensures var before, after := Lookup(q.tasks, other), Lookup(Change(q, id, from, to).tasks, other);
            after == if other == id && before.Some? && before.value.status in from
                     then Some(before.value.(status := to)) else before
  {
    var task := Lookup(q.tasks, id);
    if task.Some? && task.value.status in from {
      LookupAfterReplace(q.tasks, id, to, task.value.worktreePath, other);
    }
  }

  /** What happens to a task when it is named by an action other than a pick. */
  lemma ActionsExactly(q: Queue, limits: ConcurrencyLimits, action: QueueAction, other: string)
    requires !action.PickReady? && !action.PickResuming?
    ensures var before, after := Lookup(q.tasks, other), Lookup(Perform(q, limits, action).tasks, other);
            if other != action.taskId || before.None? then after == before
            else
              var task := before.value;
              after == Some(
                match action
                case Finish(_, outcome) =>
                  if task.status == Working && outcome in {Done, Paused, Blocked} then task.(status := outcome) else task
                case HandOff(_) => if task.status == Done then task.(worktreePath := None) else task
                case MarkReady(_) => if task.status in {Draft, Blocked} then task.(status := Ready) else task
                case RequestResume(_) => if task.status == Paused then task.(status := Resuming) else task
                case Abort(_, target) =>
                  if target in {Blocked, Removed} && task.status !in {Done, Removed}
                  then task.(status := target) else task)
  {
    match action
    case Finish(id, outcome) => ChangesExactly(q, id, {Working}, outcome, other);
    case HandOff(id) => LookupAfterReplace(q.tasks, id, Done, None, other);
    case MarkReady(id) => ChangesExactly(q, id, {Draft, Blocked}, Ready, other);
    case RequestResume(id) => ChangesExactly(q, id, {Paused}, Resuming, other);
    case Abort(id, target) =>
      if target in {Blocked, Removed} {
        ChangesExactly(q, id, {Draft, Ready, Resuming, Working, Paused, Blocked}, target, other);
        AbortableExactly(if Lookup(q.tasks, other).Some? then Lookup(q.tasks, other).value.status else Done);
      }
  }

  lemma AbortableExactly(status: TaskStatus)
    ensures status in {Draft, Ready, Resuming, Working, Paused, Blocked} <==> status !in {Done, Removed}
  {
  }

  // ---------------------------------------------------------------------------
  // Capacity
  // ---------------------------------------------------------------------------

  ghost predicate WithinCapacity(q: Queue, limits: ConcurrencyLimits) {
    && CountWorking(q.tasks, None) <= limits.globalMax
    && forall repoId :: CountWorking(q.tasks, Some(repoId)) <= limits.RepoMax(repoId)
  }

  lemma PickedTaskIsInQueue(q: Queue, limits: ConcurrencyLimits, desired: TaskStatus, order: OrderBy)
    requires DistinctIds(q.tasks) && PickNext(q, limits, desired, order).Some?
    ensures var task := PickNext(q, limits, desired, order).value;
            && Lookup(q.tasks, task.id) == Some(task)
            && task.status == desired && CanRun(q, limits, desired, task)
            && CountWorking(q.tasks, None) < limits.globalMax
  {
    PickIsOptimal(q, limits, desired, order);
    var i :| Runnable(q, limits, desired, i) && q.tasks[i] == PickNext(q, limits, desired, order).value;
    RunnableExactly(q, limits, desired, i);
    CountWorkingExactly(q.tasks, None);
    LookupAt(q.tasks, i);
  }

  /** A pick puts the picked task to work, with its worktree, and no other; READY ones oldest first. */
  lemma PicksExactly(q: Queue, limits: ConcurrencyLimits, ready: bool, worktree: string, other: string)
    requires DistinctIds(q.tasks)
    ensures var picked := if ready then PickNext(q, limits, Ready, Ascending) else PickNext(q, limits, Resuming, Descending);
            var next := Perform(q, limits, if ready then PickReady(worktree) else PickResuming(worktree));
            var before := Lookup(q.tasks, other);
            Lookup(next.tasks, other)
            == if picked.Some? && picked.value.id == other
               then Some(picked.value.(status := Working, worktreePath := Some(worktree))) else before
  {
    var picked := if ready then PickNext(q, limits, Ready, Ascending) else PickNext(q, limits, Resuming, Descending);
    if picked.Some? {
      if ready {
        PickedTaskIsInQueue(q, limits, Ready, Ascending);
      } else {
        PickedTaskIsInQueue(q, limits, Resuming, Descending);
      }
      LookupAfterReplace(q.tasks, picked.value.id, Working, Some(worktree), other);
    }
  }

  /** Everything but a pick leaves the tasks alone, or replaces one by a task that does not work. */
  lemma OtherActionsReplace(q: Queue, limits: ConcurrencyLimits, action: QueueAction)
      returns (id: string, status: TaskStatus, worktree: Option<string>)
    requires !action.PickReady? && !action.PickResuming?
    ensures status != Working
    ensures Perform(q, limits, action) == q
            || Perform(q, limits, action) == q.(tasks := Replace(q.tasks, id, status, worktree))
  {
    id := action.taskId;
    var task := Lookup(q.tasks, id);
    status := match action
      case Finish(_, outcome) => if outcome != Working then outcome else Done
      case HandOff(_) => Done
      case MarkReady(_) => Ready
      case RequestResume(_) => Resuming
      case Abort(_, target) => if target != Working then target else Removed;
    worktree := if action.HandOff? || task.None? then None else task.value.worktreePath;
  }

  lemma ReplaceKeepsCapacity(
    q: Queue, limits: ConcurrencyLimits, id: string, status: TaskStatus, worktree: Option<string>)
    requires DistinctIds(q.tasks) && WithinCapacity(q, limits) && status != Working
    ensures var next := q.(tasks := Replace(q.tasks, id, status, worktree));
            DistinctIds(next.tasks) && WithinCapacity(next, limits)
  {
    var next := q.(tasks := Replace(q.tasks, id, status, worktree));
    ReplaceKeepsIds(q.tasks, id, status, worktree);
    CountAfterReplace(q.tasks, id, status, worktree, None);
    forall repoId ensures CountWorking(next.tasks, Some(repoId)) <= limits.RepoMax(repoId) {
      CountAfterReplace(q.tasks, id, status, worktree, Some(repoId));
    }
  }

  lemma PickKeepsCapacity(
    q: Queue, limits: ConcurrencyLimits, desired: TaskStatus, order: OrderBy, worktree: string)
    requires DistinctIds(q.tasks) && WithinCapacity(q, limits) && desired != Working
    ensures var next := MarkWorking(q, PickNext(q, limits, desired, order), worktree);
            DistinctIds(next.tasks) && WithinCapacity(next, limits)
  {
    var picked := PickNext(q, limits, desired, order);
    if picked.Some? {
      var next := MarkWorking(q, picked, worktree);
      PickedTaskIsInQueue(q, limits, desired, order);
      ReplaceKeepsIds(q.tasks, picked.value.id, Working, Some(worktree));
      CountAfterReplace(q.tasks, picked.value.id, Working, Some(worktree), None);
      forall repoId ensures CountWorking(next.tasks, Some(repoId)) <= limits.RepoMax(repoId) {
        CountAfterReplace(q.tasks, picked.value.id, Working, Some(worktree), Some(repoId));
      }
    }
  }

  lemma ActionKeepsCapacity(q: Queue, limits: ConcurrencyLimits, action: QueueAction)
    requires DistinctIds(q.tasks) && WithinCapacity(q, limits)
    ensures DistinctIds(Perform(q, limits, action).tasks)
    ensures WithinCapacity(Perform(q, limits, action), limits)
  {
    if action.PickReady? {
      PickKeepsCapacity(q, limits, Ready, Ascending, action.worktree);
    } else if action.PickResuming? {
      PickKeepsCapacity(q, limits, Resuming, Descending, action.worktree);
    } else {
      var id, status, worktree := OtherActionsReplace(q, limits, action);
      ReplaceKeepsCapacity(q, limits, id, status, worktree);
    }
  }

  lemma {:induction false} RunKeepsCapacity(q: Queue, limits: ConcurrencyLimits, actions: seq<QueueAction>)
    requires DistinctIds(q.tasks) && WithinCapacity(q, limits)
    ensures WithinCapacity(PerformAll(q, limits, actions), limits)
    decreases |actions|
  {
    if actions != [] {
      ActionKeepsCapacity(q, limits, actions[0]);
      RunKeepsCapacity(Perform(q, limits, actions[0]), limits, actions[1..]);
    }
  }

  /** No more tasks work than the global limit and each repo's limit (3 without one) allow. */
  ghost predicate FitsLimits(tasks: Snapshot, limits: ConcurrencyLimits) {
    && |WorkingPlaces(tasks, None)| <= limits.globalMax
    && forall repoId ::
         |WorkingPlaces(tasks, Some(repoId))| <= if repoId in limits.repoMax then limits.repoMax[repoId] else 3
  }

  lemma FitsExactly(q: Queue, limits: ConcurrencyLimits)
    ensures FitsLimits(q.tasks, limits) <==> WithinCapacity(q, limits)
  {
    CountWorkingExactly(q.tasks, None);
    forall repoId ensures CountWorking(q.tasks, Some(repoId)) == |WorkingPlaces(q.tasks, Some(repoId))| {
      CountWorkingExactly(q.tasks, Some(repoId));
    }
  }

  /** No run puts more tasks to work than the global limit or any repo's limit allows. */
  lemma RunsStayWithinCapacity(q: Queue, limits: ConcurrencyLimits, actions: seq<QueueAction>)
    requires DistinctIds(q.tasks) && FitsLimits(q.tasks, limits)
    ensures FitsLimits(PerformAll(q, limits, actions).tasks, limits)
  {
    FitsExactly(q, limits);
    RunKeepsCapacity(q, limits, actions);
    FitsExactly(PerformAll(q, limits, actions), limits);
  }

  // ---------------------------------------------------------------------------
  // Cycles
  // ---------------------------------------------------------------------------

  predicate DependsOn(dependencies: map<string, seq<DependencyRow>>, id: string, dependency: string) {
    var rows := RowsOf(dependencies, id);
    exists i :: 0 <= i < |rows| && rows[i].dependsOnTaskId == dependency
  }

  predicate NeverStarted(status: TaskStatus) {
    status in {Draft, Ready, Blocked, Removed}
  }

  ghost predicate WaitsWithin(
    dependencies: map<string, seq<DependencyRow>>, members: set<string>, id: string)
  {
    exists dependency :: dependency in members && DependsOn(dependencies, id, dependency)
  }

  ghost predicate NotYetStarted(q: Queue, id: string) {
    Lookup(q.tasks, id).Some? ==> NeverStarted(Lookup(q.tasks, id).value.status)
  }

  /** Every member waits for a member, and none has been started. */
  ghost predicate WaitingSet(q: Queue, members: set<string>) {
    && (forall id {:trigger NotYetStarted(q, id)} :: id in members ==> NotYetStarted(q, id))
    && (forall id {:trigger WaitsWithin(q.dependencies, members, id)} ::
          id in members ==> WaitsWithin(q.dependencies, members, id))
  }

  /** A READY pick has all its dependencies done and handed off. */
  lemma PickedDependenciesAreDone(q: Queue, limits: ConcurrencyLimits, dependency: string)
    requires DistinctIds(q.tasks) && PickNext(q, limits, Ready, Ascending).Some?
    requires DependsOn(q.dependencies, PickNext(q, limits, Ready, Ascending).value.id, dependency)
    ensures Lookup(q.tasks, dependency).Some? && HandedOff(Lookup(q.tasks, dependency).value)
  {
    PickedTaskIsInQueue(q, limits, Ready, Ascending);
    var rows := RowsOf(q.dependencies, PickNext(q, limits, Ready, Ascending).value.id);
    var i :| 0 <= i < |rows| && rows[i].dependsOnTaskId == dependency;
    assert !BlocksDependents(rows[i], q.tasks) && !DelaysDependents(rows[i], q.tasks);
  }

  /** A task that was never started stays so, unless this very action picks it. */
  lemma NeverStartedIsKept(q: Queue, limits: ConcurrencyLimits, action: QueueAction, id: string)
    requires DistinctIds(q.tasks)
    requires NotYetStarted(q, id)
    requires action.PickReady? && PickNext(q, limits, Ready, Ascending).Some? ==>
               PickNext(q, limits, Ready, Ascending).value.id != id
    ensures NotYetStarted(Perform(q, limits, action), id)
  {
    match action
    case PickReady(worktree) =>
      var picked := PickNext(q, limits, Ready, Ascending);
      if picked.Some? {
        LookupAfterReplace(q.tasks, picked.value.id, Working, Some(worktree), id);
      }
    case PickResuming(worktree) =>
      var picked := PickNext(q, limits, Resuming, Descending);
      if picked.Some? {
        PickedTaskIsInQueue(q, limits, Resuming, Descending);
        LookupAfterReplace(q.tasks, picked.value.id, Working, Some(worktree), id);
      }
    case HandOff(taskId) => LookupAfterReplace(q.tasks, taskId, Done, None, id);
    case Finish(taskId, outcome) => ChangeLooksUp(q, taskId, {Working}, outcome, id);
    case MarkReady(taskId) => ChangeLooksUp(q, taskId, {Draft, Blocked}, Ready, id);
    case RequestResume(taskId) => ChangeLooksUp(q, taskId, {Paused}, Resuming, id);
    case Abort(taskId, target) =>
      ChangeLooksUp(q, taskId, {Draft, Ready, Resuming, Working, Paused, Blocked}, target, id);
  }

  lemma ActionKeepsIds(q: Queue, limits: ConcurrencyLimits, action: QueueAction)
    requires DistinctIds(q.tasks)
    ensures DistinctIds(Perform(q, limits, action).tasks)
    ensures Perform(q, limits, action).dependencies == q.dependencies
  {
    if action.PickReady? || action.PickResuming? {
    } else {
      var id, status, worktree := OtherActionsReplace(q, limits, action);
      ReplaceKeepsIds(q.tasks, id, status, worktree);
    }
  }

  lemma ActionKeepsWaiting(q: Queue, limits: ConcurrencyLimits, action: QueueAction, members: set<string>)
    requires DistinctIds(q.tasks) && WaitingSet(q, members)
    ensures DistinctIds(Perform(q, limits, action).tasks)
    ensures WaitingSet(Perform(q, limits, action), members)
  {
    ActionKeepsIds(q, limits, action);
    forall id | id in members ensures NotYetStarted(Perform(q, limits, action), id) {
      assert NotYetStarted(q, id);
      if action.PickReady? && PickNext(q, limits, Ready, Ascending).Some?
         && PickNext(q, limits, Ready, Ascending).value.id == id {
        assert WaitsWithin(q.dependencies, members, id);
        var dependency :| dependency in members && DependsOn(q.dependencies, id, dependency);
        assert NotYetStarted(q, dependency);
        PickedDependenciesAreDone(q, limits, dependency);
        assert false;
      }
      NeverStartedIsKept(q, limits, action, id);
    }
  }

  lemma ChangeLooksUp(q: Queue, id: string, from: set<TaskStatus>, to: TaskStatus, other: string)
    ensures var before := Lookup(q.tasks, other);
            var after := Lookup(Change(q, id, from, to).tasks, other);
            && (before.None? ==> after.None?)
            && (before.Some? ==>
                  && after.Some?
                  && after.value.status
                     == if other == id && before.value.status in from then to else before.value.status)
  {
    var task := Lookup(q.tasks, id);
    if task.Some? {
      LookupAfterReplace(q.tasks, id, to, task.value.worktreePath, other);
    }
  }

  /** No run of picks, finishes, aborts and mark-readys ever puts a member of such a set to work. */
  lemma {:induction false} CyclesNeverStart(
    q: Queue, limits: ConcurrencyLimits, actions: seq<QueueAction>, members: set<string>, id: string)
    requires DistinctIds(q.tasks) && WaitingSet(q, members) && id in members
    ensures NotYetStarted(PerformAll(q, limits, actions), id)
    decreases |actions|
  {
    assert NotYetStarted(q, id);
    if actions != [] {
      ActionKeepsWaiting(q, limits, actions[0], members);
      CyclesNeverStart(Perform(q, limits, actions[0]), limits, actions[1..], members, id);
    }
  }

  // ---------------------------------------------------------------------------
  // Draining
  // ---------------------------------------------------------------------------

  /** Nothing runs: every task is READY, or done and handed off; dependencies are tasks of the queue. */
  ghost predicate Settled(q: Queue) {
    && DistinctIds(q.tasks)
    && (forall i :: 0 <= i < |q.tasks| ==> q.tasks[i].status == Ready || HandedOff(q.tasks[i]))
    && (forall i, dependency :: 0 <= i < |q.tasks| && DependsOn(q.dependencies, q.tasks[i].id, dependency) ==>
          Lookup(q.tasks, dependency).Some?)
  }

  ghost predicate HasRoom(limits: ConcurrencyLimits) {
    limits.globalMax >= 1 && forall repoId :: limits.RepoMax(repoId) >= 1
  }

  ghost predicate IsReady(q: Queue, id: string) {
    Lookup(q.tasks, id).Some? && Lookup(q.tasks, id).value.status == Ready
  }

  /** A rank of the tasks that falls along every dependency: there is no cycle. */
  ghost predicate Ranks(q: Queue, rank: string -> nat) {
    forall i, dependency :: 0 <= i < |q.tasks| && DependsOn(q.dependencies, q.tasks[i].id, dependency) ==>
      rank(dependency) < rank(q.tasks[i].id)
  }

  lemma {:induction false} SettledCountsNothing(tasks: Snapshot, repoId: Option<string>)
    requires forall i :: 0 <= i < |tasks| ==> tasks[i].status != Working
    ensures CountWorking(tasks, repoId) == 0
  {
    if tasks != [] {
      SettledCountsNothing(tasks[1..], repoId);
    }
  }

  /** With nothing running, nothing is picked exactly when every READY task depends on a READY task. */
  lemma StuckExactly(q: Queue, limits: ConcurrencyLimits)
    requires Settled(q) && HasRoom(limits)
    ensures PickNext(q, limits, Ready, Ascending).None?
       <==> forall i :: 0 <= i < |q.tasks| && q.tasks[i].status == Ready ==>
              exists dependency :: DependsOn(q.dependencies, q.tasks[i].id, dependency) && IsReady(q, dependency)
  {
    PickIsOptimal(q, limits, Ready, Ascending);
    SettledCountsNothing(q.tasks, None);
    CountWorkingExactly(q.tasks, None);
    forall i | 0 <= i < |q.tasks| && q.tasks[i].status == Ready
      ensures Runnable(q, limits, Ready, i)
         <==> !exists dependency :: DependsOn(q.dependencies, q.tasks[i].id, dependency) && IsReady(q, dependency)
    {
      SettledCountsNothing(q.tasks, Some(q.tasks[i].repoId));
      RunnableExactly(q, limits, Ready, i);
      WaitsExactly(q, i);
    }
  }

  lemma WaitsExactly(q: Queue, i: nat)
    requires Settled(q) && i < |q.tasks|
    ensures DependencyStateOf(RowsOf(q.dependencies, q.tasks[i].id), q.tasks) == DependenciesReady
       <==> !exists dependency :: DependsOn(q.dependencies, q.tasks[i].id, dependency) && IsReady(q, dependency)
  {
    var rows := RowsOf(q.dependencies, q.tasks[i].id);
    forall k | 0 <= k < |rows|
      ensures IsReady(q, rows[k].dependsOnTaskId)
         <==> BlocksDependents(rows[k], q.tasks) || DelaysDependents(rows[k], q.tasks)
    {
      assert DependsOn(q.dependencies, q.tasks[i].id, rows[k].dependsOnTaskId);
      assert Lookup(q.tasks, rows[k].dependsOnTaskId).Some?;
      var j := IndexOfId(q.tasks, rows[k].dependsOnTaskId).value;
      assert q.tasks[j].status == Ready || HandedOff(q.tasks[j]);
    }
  }

  lemma {:induction false} LowestReady(q: Queue, rank: string -> nat, i: nat) returns (lowest: nat)
    requires Settled(q) && Ranks(q, rank) && i < |q.tasks| && q.tasks[i].status == Ready
    ensures lowest < |q.tasks| && q.tasks[lowest].status == Ready
    ensures !exists dependency :: DependsOn(q.dependencies, q.tasks[lowest].id, dependency) && IsReady(q, dependency)
    decreases rank(q.tasks[i].id)
  {
    if dependency :| DependsOn(q.dependencies, q.tasks[i].id, dependency) && IsReady(q, dependency) {
      lowest := LowestReady(q, rank, IndexOfId(q.tasks, dependency).value);
    } else {
      lowest := i;
    }
  }

  /** Deadlock freedom: an acyclic queue with room picks something whenever something is READY. */
  lemma AcyclicQueuesProgress(q: Queue, limits: ConcurrencyLimits, rank: string -> nat)
    requires Settled(q) && HasRoom(limits) && Ranks(q, rank)
    requires exists i :: 0 <= i < |q.tasks| && q.tasks[i].status == Ready
    ensures PickNext(q, limits, Ready, Ascending).Some?
  {
    var i :| 0 <= i < |q.tasks| && q.tasks[i].status == Ready;
    var lowest := LowestReady(q, rank, i);
    StuckExactly(q, limits);
  }

  ghost function ReadyIds(q: Queue): set<string> {
    set i | 0 <= i < |q.tasks| && q.tasks[i].status == Ready :: q.tasks[i].id
  }

  /** Pick, run to DONE, hand off. */
  function RunOne(q: Queue, limits: ConcurrencyLimits): Queue {
    match PickNext(q, limits, Ready, Ascending)
    case None => q
    case Some(task) =>
      var working := Perform(q, limits, PickReady("worktree"));
      Perform(Perform(working, limits, Finish(task.id, Done)), limits, HandOff(task.id))
  }

  lemma RunOneFinishes(q: Queue, limits: ConcurrencyLimits)
    requires DistinctIds(q.tasks) && PickNext(q, limits, Ready, Ascending).Some?
    ensures var task := PickNext(q, limits, Ready, Ascending).value;
            RunOne(q, limits) == q.(tasks := Replace(q.tasks, task.id, Done, None))
  {
    var task := PickNext(q, limits, Ready, Ascending).value;
    PickedTaskIsInQueue(q, limits, Ready, Ascending);
    var working := Perform(q, limits, PickReady("worktree"));
    LookupAfterReplace(q.tasks, task.id, Working, Some("worktree"), task.id);
    var done := Perform(working, limits, Finish(task.id, Done));
    LookupAfterReplace(working.tasks, task.id, Done, Some("worktree"), task.id);
    var handedOff := Perform(done, limits, HandOff(task.id));
    ReplaceTwice(q.tasks, task.id, Working, Some("worktree"), Done, Some("worktree"));
    ReplaceTwice(q.tasks, task.id, Done, Some("worktree"), Done, None);
  }

  lemma ReplaceTwice(
    tasks: Snapshot, id: string, s1: TaskStatus, w1: Option<string>, s2: TaskStatus, w2: Option<string>)
    ensures Replace(Replace(tasks, id, s1, w1), id, s2, w2) == Replace(tasks, id, s2, w2)
  {
    SameIdsSameIndex(tasks, Replace(tasks, id, s1, w1), id);
  }

  lemma FinishingKeepsSettled(q: Queue, rank: string -> nat, id: string)
    requires Settled(q) && Ranks(q, rank) && IsReady(q, id)
    ensures var next := q.(tasks := Replace(q.tasks, id, Done, None));
            && Settled(next) && Ranks(next, rank)
            && ReadyIds(next) == ReadyIds(q) - {id} && id in ReadyIds(q)
  {
    var next := q.(tasks := Replace(q.tasks, id, Done, None));
    ReplaceKeepsIds(q.tasks, id, Done, None);
    var i := IndexOfId(q.tasks, id).value;
    forall k | 0 <= k < |next.tasks| ensures next.tasks[k].id == q.tasks[k].id {
    }
    forall k, dependency | 0 <= k < |next.tasks| && DependsOn(next.dependencies, next.tasks[k].id, dependency)
      ensures Lookup(next.tasks, dependency).Some? && rank(dependency) < rank(next.tasks[k].id)
    {
      assert DependsOn(q.dependencies, q.tasks[k].id, dependency);
      LookupAfterReplace(q.tasks, id, Done, None, dependency);
    }
    forall x ensures x in ReadyIds(next) <==> x in ReadyIds(q) - {id} {
      if x in ReadyIds(q) - {id} {
        var k :| 0 <= k < |q.tasks| && q.tasks[k].status == Ready && q.tasks[k].id == x;
        assert next.tasks[k] == q.tasks[k];
      }
    }
  }

  lemma DrainStep(q: Queue, limits: ConcurrencyLimits, rank: string -> nat)
    requires Settled(q) && Ranks(q, rank) && PickNext(q, limits, Ready, Ascending).Some?
    ensures var id := PickNext(q, limits, Ready, Ascending).value.id;
            var next := RunOne(q, limits);
            && next == q.(tasks := Replace(q.tasks, id, Done, None))
            && Settled(next) && Ranks(next, rank)
            && ReadyIds(next) == ReadyIds(q) - {id} && id in ReadyIds(q)
            && |ReadyIds(next)| < |ReadyIds(q)|
  {
    PickedTaskIsInQueue(q, limits, Ready, Ascending);
    RunOneFinishes(q, limits);
    FinishingKeepsSettled(q, rank, PickNext(q, limits, Ready, Ascending).value.id);
    SubsetSize(ReadyIds(RunOne(q, limits)), ReadyIds(q));
  }

  /** The ids in the order in which the queue runs them when nothing else happens. */
  ghost function DrainOrder(q: Queue, limits: ConcurrencyLimits, rank: string -> nat): seq<string>
    requires Settled(q) && Ranks(q, rank)
    decreases |ReadyIds(q)|
  {
    var picked := PickNext(q, limits, Ready, Ascending);
    if picked.None? then []
    else
      DrainStep(q, limits, rank);
      [picked.value.id] + DrainOrder(RunOne(q, limits), limits, rank)
  }

  lemma NothingPickedMeansNothingReady(q: Queue, limits: ConcurrencyLimits, rank: string -> nat)
    requires Settled(q) && HasRoom(limits) && Ranks(q, rank)
    requires PickNext(q, limits, Ready, Ascending).None?
    ensures ReadyIds(q) == {}
  {
    if i :| 0 <= i < |q.tasks| && q.tasks[i].status == Ready {
      AcyclicQueuesProgress(q, limits, rank);
    }
  }

  /** Every READY task runs exactly once. */
  lemma {:induction false} DrainRunsEachOnce(q: Queue, limits: ConcurrencyLimits, rank: string -> nat)
    requires Settled(q) && HasRoom(limits) && Ranks(q, rank)
    ensures NoDuplicates(DrainOrder(q, limits, rank))
    ensures Elements(DrainOrder(q, limits, rank)) == ReadyIds(q)
    decreases |ReadyIds(q)|
  {
    var picked := PickNext(q, limits, Ready, Ascending);
    if picked.None? {
      NothingPickedMeansNothingReady(q, limits, rank);
    } else {
      DrainStep(q, limits, rank);
      DrainRunsEachOnce(RunOne(q, limits), limits, rank);
      ConsDistinct(picked.value.id, DrainOrder(RunOne(q, limits), limits, rank));
    }
  }

  lemma ConsDistinct(x: string, rest: seq<string>)
    requires NoDuplicates(rest) && x !in Elements(rest)
    ensures NoDuplicates([x] + rest)
    ensures Elements([x] + rest) == {x} + Elements(rest)
  {
  }

  /** A task that is picked first has nothing READY to wait for; what else is READY stays so. */
  lemma DrainStepKeepsReady(q: Queue, limits: ConcurrencyLimits, dependency: string)
    requires DistinctIds(q.tasks) && PickNext(q, limits, Ready, Ascending).Some? && IsReady(q, dependency)
    ensures var id := PickNext(q, limits, Ready, Ascending).value.id;
            && !DependsOn(q.dependencies, id, dependency)
            && (dependency != id ==> IsReady(RunOne(q, limits), dependency))
  {
    var id := PickNext(q, limits, Ready, Ascending).value.id;
    if DependsOn(q.dependencies, id, dependency) {
      PickedDependenciesAreDone(q, limits, dependency);
    }
    RunOneFinishes(q, limits);
    LookupAfterReplace(q.tasks, id, Done, None, dependency);
  }

  /** Whatever is READY and needed comes before the task that needs it. */
  ghost predicate Respects(order: seq<string>, q: Queue) {
    forall k, dependency ::
      0 <= k < |order| && DependsOn(q.dependencies, order[k], dependency) && IsReady(q, dependency) ==>
        dependency in order[..k]
  }

  lemma RespectsAfterPick(q: Queue, limits: ConcurrencyLimits, rest: seq<string>)
    requires DistinctIds(q.tasks) && PickNext(q, limits, Ready, Ascending).Some?
    requires Respects(rest, RunOne(q, limits))
    ensures Respects([PickNext(q, limits, Ready, Ascending).value.id] + rest, q)
  {
    var id := PickNext(q, limits, Ready, Ascending).value.id;
    var order := [id] + rest;
    RunOneFinishes(q, limits);
    forall k, dependency |
      0 <= k < |order| && DependsOn(q.dependencies, order[k], dependency) && IsReady(q, dependency)
      ensures dependency in order[..k]
    {
      DrainStepKeepsReady(q, limits, dependency);
      assert k > 0 && rest[k - 1] == order[k] && order[..k] == [id] + rest[..k - 1];
    }
  }

  /** The order in which the queue runs them extends the dependency relation. */
  lemma {:induction false} DrainRespectsDependencies(q: Queue, limits: ConcurrencyLimits, rank: string -> nat)
    requires Settled(q) && Ranks(q, rank)
    ensures Respects(DrainOrder(q, limits, rank), q)
    decreases |ReadyIds(q)|
  {
    if PickNext(q, limits, Ready, Ascending).Some? {
      DrainStep(q, limits, rank);
      DrainRespectsDependencies(RunOne(q, limits), limits, rank);
      RespectsAfterPick(q, limits, DrainOrder(RunOne(q, limits), limits, rank));
    }
  }
}
