/**
 The dependency-aware scheduler of `task/repository.ts`: which READY or RESUMING task runs next,
 and what whole runs of picking, finishing and readying tasks keep.
 */
module Scheduler {
  import opened Collections
  import opened TaskModel

  datatype DependencyRow = DependencyRow(dependsOnTaskId: string, externalRef: Option<string>)

  datatype DependencyState = DependenciesReady | DependenciesWaiting | DependenciesBlocked

  datatype DependencySummary = DependencySummary(
    state: DependencyState,
    blockedByTaskIds: seq<string>,
    blockedByRefs: seq<string>)

  /** `getRepoMax` falls back to 3 for a repo that is not registered. */
  datatype ConcurrencyLimits = ConcurrencyLimits(globalMax: int, repoMax: map<string, int>)
  {
    function RepoMax(repoId: string): int {
      if repoId in repoMax then repoMax[repoId] else 3
    }
  }

  datatype OrderBy = Ascending | Descending

  // ---------------------------------------------------------------------------
  // Dependencies
  // ---------------------------------------------------------------------------

  predicate IsTerminalDependency(task: Option<Task>) {
    task.None? || task.value.status == Blocked || task.value.status == Removed
  }

  /** Done, and its worktree handed back. */
  predicate HandedOff(task: Task) {
    task.status == Done && task.worktreePath.None?
  }

  predicate BlocksDependents(row: DependencyRow, tasks: Snapshot) {
    IsTerminalDependency(Lookup(tasks, row.dependsOnTaskId))
  }

  predicate DelaysDependents(row: DependencyRow, tasks: Snapshot) {
    var task := Lookup(tasks, row.dependsOnTaskId);
    !IsTerminalDependency(task) && !HandedOff(task.value)
  }

  predicate Holds(row: DependencyRow, tasks: Snapshot, state: DependencyState) {
    match state
    case DependenciesBlocked => BlocksDependents(row, tasks)
    case DependenciesWaiting => DelaysDependents(row, tasks)
    case DependenciesReady => false
  }

  predicate SomeHolds(rows: seq<DependencyRow>, tasks: Snapshot, state: DependencyState) {
    exists i :: 0 <= i < |rows| && Holds(rows[i], tasks, state)
  }

  /** One dead dependency outweighs any number of unfinished ones. */
  function DependencyStateOf(rows: seq<DependencyRow>, tasks: Snapshot): DependencyState {
    if SomeHolds(rows, tasks, DependenciesBlocked) then DependenciesBlocked
    else if SomeHolds(rows, tasks, DependenciesWaiting) then DependenciesWaiting
    else DependenciesReady
  }

  /** The rows that hold the task back in the given state, in their order. */
  function HoldingRows(rows: seq<DependencyRow>, tasks: Snapshot, state: DependencyState): seq<DependencyRow> {
    if rows == [] then []
    else
      var before := HoldingRows(rows[..|rows| - 1], tasks, state);
      if Holds(Last(rows), tasks, state) then before + [Last(rows)] else before
  }

  function TaskIdsOf(rows: seq<DependencyRow>): seq<string> {
    if rows == [] then [] else TaskIdsOf(rows[..|rows| - 1]) + [Last(rows).dependsOnTaskId]
  }

  function AddRef(refs: seq<string>, externalRef: Option<string>): seq<string> {
    if externalRef.Some? && externalRef.value != "" && externalRef.value !in refs
    then refs + [externalRef.value] else refs
  }

  function RefsOf(rows: seq<DependencyRow>): seq<string> {
    if rows == [] then [] else AddRef(RefsOf(rows[..|rows| - 1]), Last(rows).externalRef)
  }

  lemma {:induction false} RefsAreDistinct(rows: seq<DependencyRow>)
    ensures NoDuplicates(RefsOf(rows))
    ensures forall ref ::
      ref in RefsOf(rows) <==> ref != "" && exists row :: row in rows && row.externalRef == Some(ref)
  {
    if rows != [] {
      var before := rows[..|rows| - 1];
      RefsAreDistinct(before);
      forall ref ensures ref in RefsOf(rows)
                    <==> ref != "" && exists row :: row in rows && row.externalRef == Some(ref) {
        assert rows == before + [Last(rows)];
        assert forall row :: row in rows <==> row in before || row == Last(rows);
      }
    }
  }

  /** Later rows only add behind: references stay in the order of their first row. */
  lemma {:induction false} RefsKeepOrder(rows: seq<DependencyRow>, k: nat)
    requires k <= |rows|
    ensures RefsOf(rows[..k]) <= RefsOf(rows)
  {
    if k == |rows| {
      assert rows[..k] == rows;
    } else {
      var before := rows[..|rows| - 1];
      assert rows[..k] == before[..k];
      RefsKeepOrder(before, k);
    }
  }

  /** No such task, or one that will never be done. */
  ghost predicate IsDead(tasks: Snapshot, id: string) {
    var task := Lookup(tasks, id);
    task.None? || task.value.status in {Blocked, Removed}
  }

  /** A task whose work is over: DONE, its worktree handed back. */
  ghost predicate IsOver(tasks: Snapshot, id: string) {
    && Lookup(tasks, id).Some?
    && Lookup(tasks, id).value.status == Done
    && Lookup(tasks, id).value.worktreePath == None
  }

  lemma HoldsExactly(row: DependencyRow, tasks: Snapshot)
    ensures Holds(row, tasks, DependenciesBlocked) <==> IsDead(tasks, row.dependsOnTaskId)
    ensures Holds(row, tasks, DependenciesWaiting)
       <==> !IsDead(tasks, row.dependsOnTaskId) && !IsOver(tasks, row.dependsOnTaskId)
    ensures !Holds(row, tasks, DependenciesReady)
  {
  }

  /** Blocked by a dead dependency; else waiting for one that is not over; else ready. */
  lemma DependencyStateExactly(rows: seq<DependencyRow>, tasks: Snapshot)
    ensures var state := DependencyStateOf(rows, tasks);
            && (state == DependenciesBlocked
                <==> exists k :: 0 <= k < |rows| && IsDead(tasks, rows[k].dependsOnTaskId))
            && (state == DependenciesReady
                <==> forall k :: 0 <= k < |rows| ==> IsOver(tasks, rows[k].dependsOnTaskId))
  {
    forall k | 0 <= k < |rows|
      ensures Holds(rows[k], tasks, DependenciesBlocked) <==> IsDead(tasks, rows[k].dependsOnTaskId)
      ensures Holds(rows[k], tasks, DependenciesWaiting)
         <==> !IsDead(tasks, rows[k].dependsOnTaskId) && !IsOver(tasks, rows[k].dependsOnTaskId)
    {
      HoldsExactly(rows[k], tasks);
    }
  }

  lemma {:induction false} HoldingRowsHold(rows: seq<DependencyRow>, tasks: Snapshot, state: DependencyState)
    ensures forall row :: row in HoldingRows(rows, tasks, state) <==>
              row in rows && Holds(row, tasks, state)
  {
    if rows != [] {
      var before := rows[..|rows| - 1];
      HoldingRowsHold(before, tasks, state);
      assert rows == before + [Last(rows)];
    }
  }

  /** The listed rows: the dead dependencies of a blocked task, the unfinished ones of a waiting task. */
  lemma HoldingRowsAre(rows: seq<DependencyRow>, tasks: Snapshot, row: DependencyRow)
    ensures row in HoldingRows(rows, tasks, DependenciesBlocked) <==> row in rows && IsDead(tasks, row.dependsOnTaskId)
    ensures row in HoldingRows(rows, tasks, DependenciesWaiting)
       <==> row in rows && !IsDead(tasks, row.dependsOnTaskId) && !IsOver(tasks, row.dependsOnTaskId)
    ensures row !in HoldingRows(rows, tasks, DependenciesReady)
  {
    HoldsExactly(row, tasks);
    HoldingRowsHold(rows, tasks, DependenciesBlocked);
    HoldingRowsHold(rows, tasks, DependenciesWaiting);
    HoldingRowsHold(rows, tasks, DependenciesReady);
  }

  /**
   The loop over the dependency rows. The summary names a state and exactly the rows that hold the
   task back in it, with their distinct non-empty references.
   */
  method SummarizeDependencyRows(rows: seq<DependencyRow>, tasks: Snapshot) returns (summary: DependencySummary)
    ensures summary.state == DependencyStateOf(rows, tasks)
    ensures summary.blockedByTaskIds == TaskIdsOf(HoldingRows(rows, tasks, summary.state))
    ensures summary.blockedByRefs == RefsOf(HoldingRows(rows, tasks, summary.state))
  {
    var blockedByTaskIds: seq<string>, blockedByRefs: seq<string> := [], [];
    var waitingTaskIds: seq<string>, waitingRefs: seq<string> := [], [];
    for k := 0 to |rows|
      invariant blockedByTaskIds == TaskIdsOf(HoldingRows(rows[..k], tasks, DependenciesBlocked))
      invariant blockedByRefs == RefsOf(HoldingRows(rows[..k], tasks, DependenciesBlocked))
      invariant waitingTaskIds == TaskIdsOf(HoldingRows(rows[..k], tasks, DependenciesWaiting))
      invariant waitingRefs == RefsOf(HoldingRows(rows[..k], tasks, DependenciesWaiting))
    {
      var row := rows[k];
      var task := Lookup(tasks, row.dependsOnTaskId);
      HoldingStep(rows, k, tasks, DependenciesBlocked);
      HoldingStep(rows, k, tasks, DependenciesWaiting);
      if IsTerminalDependency(task) {
        blockedByTaskIds := blockedByTaskIds + [row.dependsOnTaskId];
        blockedByRefs := AddRef(blockedByRefs, row.externalRef);
        continue;
      }
      if !HandedOff(task.value) {
        waitingTaskIds := waitingTaskIds + [row.dependsOnTaskId];
        waitingRefs := AddRef(waitingRefs, row.externalRef);
      }
    }
    assert rows[..|rows|] == rows;
    SomeHoldsExactly(rows, tasks, DependenciesBlocked);
    SomeHoldsExactly(rows, tasks, DependenciesWaiting);
    HoldingRowsEmpty(rows, tasks);
    if |blockedByTaskIds| > 0 {
      return DependencySummary(DependenciesBlocked, blockedByTaskIds, blockedByRefs);
    }
    if |waitingTaskIds| > 0 {
      return DependencySummary(DependenciesWaiting, waitingTaskIds, waitingRefs);
    }
    return DependencySummary(DependenciesReady, [], []);
  }

  lemma {:induction false} SomeHoldsExactly(rows: seq<DependencyRow>, tasks: Snapshot, state: DependencyState)
    ensures TaskIdsOf(HoldingRows(rows, tasks, state)) != [] <==> SomeHolds(rows, tasks, state)
  {
    if rows != [] {
      var k := |rows| - 1;
      SomeHoldsExactly(rows[..k], tasks, state);
      HoldingStep(rows, k, tasks, state);
      assert rows[..k + 1] == rows;
      if i :| 0 <= i < |rows[..k]| && Holds(rows[..k][i], tasks, state) {
        assert Holds(rows[i], tasks, state);
      }
      if i :| 0 <= i < |rows| && Holds(rows[i], tasks, state) && i != k {
        assert Holds(rows[..k][i], tasks, state);
      }
    }
  }

  lemma HoldingStep(rows: seq<DependencyRow>, k: nat, tasks: Snapshot, state: DependencyState)
    requires k < |rows|
    ensures var before := HoldingRows(rows[..k], tasks, state);
            var after := HoldingRows(rows[..k + 1], tasks, state);
            if Holds(rows[k], tasks, state)
            then TaskIdsOf(after) == TaskIdsOf(before) + [rows[k].dependsOnTaskId]
                 && RefsOf(after) == AddRef(RefsOf(before), rows[k].externalRef)
            else after == before
  {
    var before := HoldingRows(rows[..k], tasks, state);
    assert rows[..k + 1][..k] == rows[..k];
    assert (before + [rows[k]])[..|before|] == before;
  }

  lemma {:induction false} HoldingRowsEmpty(rows: seq<DependencyRow>, tasks: Snapshot)
    ensures HoldingRows(rows, tasks, DependenciesReady) == []
  {
    if rows != [] {
      HoldingRowsEmpty(rows[..|rows| - 1], tasks);
    }
  }

  // ---------------------------------------------------------------------------
  // Order
  // ---------------------------------------------------------------------------

  /** Nulls come last. */
  function CompareNullableDate(left: Option<int>, right: Option<int>): int {
    if left == right then 0
    else if left.None? then 1
    else if right.None? then -1
    else if left.value < right.value then -1
    else 1
  }

  function CompareBy(order: OrderBy, left: Task, right: Task): int {
    var result := CompareNullableDate(left.readyAt, right.readyAt);
    if order == Ascending then result else result * -1
  }

  /** The standard sort is stable: an element goes before the first one it does not follow. */
  function Insert(task: Task, sorted: Snapshot, order: OrderBy): Snapshot {
    if sorted == [] || CompareBy(order, task, sorted[0]) <= 0 then [task] + sorted
    else [sorted[0]] + Insert(task, sorted[1..], order)
  }

  function SortTasks(tasks: Snapshot, order: OrderBy): Snapshot {
    if tasks == [] then [] else Insert(tasks[0], SortTasks(tasks[1..], order), order)
  }

  ghost predicate Sorted(tasks: Snapshot, order: OrderBy) {
    tasks == [] || (NoneBefore(tasks[0], tasks[1..], order) && Sorted(tasks[1..], order))
  }

  ghost predicate NoneBefore(head: Task, tasks: Snapshot, order: OrderBy) {
    forall t :: t in tasks ==> InOrder(order, head.readyAt, t.readyAt)
  }

  /** Ascending: earlier times first and none at all last; descending the other way round. */
  predicate InOrder(order: OrderBy, first: Option<int>, second: Option<int>) {
    match order
    case Ascending => second.Some? ==> first.Some? && first.value <= second.value
    case Descending => first.Some? ==> second.Some? && second.value <= first.value
  }

  lemma ComparesInOrder(order: OrderBy, a: Task, b: Task)
    ensures CompareBy(order, a, b) <= 0 <==> InOrder(order, a.readyAt, b.readyAt)
    ensures CompareBy(order, a, b) == 0 <==> a.readyAt == b.readyAt
  {
  }

  lemma InOrderIsTransitive(order: OrderBy, a: Option<int>, b: Option<int>, c: Option<int>)
    requires InOrder(order, a, b) && InOrder(order, b, c)
    ensures InOrder(order, a, c)
  {
  }

  lemma NoneBeforeHead(task: Task, sorted: Snapshot, order: OrderBy)
    requires sorted != [] && Sorted(sorted, order) && CompareBy(order, task, sorted[0]) <= 0
    ensures NoneBefore(task, sorted, order)
  {
    ComparesInOrder(order, task, sorted[0]);
    forall t | t in sorted ensures InOrder(order, task.readyAt, t.readyAt) {
      if t in sorted[1..] {
        InOrderIsTransitive(order, task.readyAt, sorted[0].readyAt, t.readyAt);
      }
    }
  }

  lemma SortedCons(head: Task, tail: Snapshot, order: OrderBy)
    requires NoneBefore(head, tail, order) && Sorted(tail, order)
    ensures Sorted([head] + tail, order)
  {
    assert ([head] + tail)[1..] == tail;
  }

  lemma {:induction false} InsertAdds(task: Task, sorted: Snapshot, order: OrderBy)
    ensures forall t :: t in Insert(task, sorted, order) ==> t == task || t in sorted
  {
    if sorted != [] && CompareBy(order, task, sorted[0]) > 0 {
      InsertAdds(task, sorted[1..], order);
    }
  }

  lemma {:induction false} InsertKeepsSorted(task: Task, sorted: Snapshot, order: OrderBy)
    requires Sorted(sorted, order)
    ensures Sorted(Insert(task, sorted, order), order)
  {
    if sorted == [] {
    } else if CompareBy(order, task, sorted[0]) <= 0 {
      NoneBeforeHead(task, sorted, order);
      SortedCons(task, sorted, order);
    } else {
      var rest := Insert(task, sorted[1..], order);
      InsertKeepsSorted(task, sorted[1..], order);
      InsertAdds(task, sorted[1..], order);
      ComparesInOrder(order, task, sorted[0]);
      assert NoneBefore(sorted[0], rest, order);
      SortedCons(sorted[0], rest, order);
    }
  }

  lemma {:induction false} SortTasksSorts(tasks: Snapshot, order: OrderBy)
    ensures Sorted(SortTasks(tasks, order), order)
  {
    if tasks != [] {
      SortTasksSorts(tasks[1..], order);
      InsertKeepsSorted(tasks[0], SortTasks(tasks[1..], order), order);
    }
  }

  lemma {:induction false} InsertPermutes(task: Task, sorted: Snapshot, order: OrderBy)
    ensures multiset(Insert(task, sorted, order)) == multiset{task} + multiset(sorted)
  {
    if sorted != [] && CompareBy(order, task, sorted[0]) > 0 {
      InsertPermutes(task, sorted[1..], order);
      assert sorted == [sorted[0]] + sorted[1..];
    }
  }

  /** Sorting loses and invents no task. */
  lemma {:induction false} SortTasksPermutes(tasks: Snapshot, order: OrderBy)
    ensures multiset(SortTasks(tasks, order)) == multiset(tasks)
  {
    if tasks != [] {
      SortTasksPermutes(tasks[1..], order);
      InsertPermutes(tasks[0], SortTasks(tasks[1..], order), order);
      assert tasks == [tasks[0]] + tasks[1..];
    }
  }

  // ---------------------------------------------------------------------------
  // Picking
  // ---------------------------------------------------------------------------

  datatype Queue = Queue(tasks: Snapshot, dependencies: map<string, seq<DependencyRow>>)

  function RowsOf(dependencies: map<string, seq<DependencyRow>>, taskId: string): seq<DependencyRow> {
    if taskId in dependencies then dependencies[taskId] else []
  }

  function WithStatus(tasks: Snapshot, status: TaskStatus): Snapshot {
    if tasks == [] then []
    else if tasks[0].status == status then [tasks[0]] + WithStatus(tasks[1..], status)
    else WithStatus(tasks[1..], status)
  }

  predicate IsWorkingIn(task: Task, repoId: Option<string>) {
    task.status == Working && (repoId.None? || task.repoId == repoId.value)
  }

  /** The number of WORKING tasks, of one repo or of all. */
  function CountWorking(tasks: Snapshot, repoId: Option<string>): nat {
    if tasks == [] then 0
    else CountWorking(tasks[1..], repoId) + if IsWorkingIn(tasks[0], repoId) then 1 else 0
  }

  function CountRepo(tasks: Snapshot, repoId: string): nat {
    if tasks == [] then 0
    else CountRepo(tasks[..|tasks| - 1], repoId) + if Last(tasks).repoId == repoId then 1 else 0
  }

  lemma {:induction false} CountRepoConcat(a: Snapshot, b: Snapshot, repoId: string)
    ensures CountRepo(a + b, repoId) == CountRepo(a, repoId) + CountRepo(b, repoId)
  {
    if b == [] {
      assert a + b == a;
    } else {
      var front := b[..|b| - 1];
      CountRepoConcat(a, front, repoId);
      assert (a + b)[..|a + b| - 1] == a + front;
    }
  }

  lemma {:induction false} WorkingTasksCount(tasks: Snapshot, repoId: string)
    ensures |WithStatus(tasks, Working)| == CountWorking(tasks, None)
    ensures CountRepo(WithStatus(tasks, Working), repoId) == CountWorking(tasks, Some(repoId))
  {
    if tasks != [] {
      WorkingTasksCount(tasks[1..], repoId);
      if tasks[0].status == Working {
        CountRepoConcat([tasks[0]], WithStatus(tasks[1..], Working), repoId);
        assert [tasks[0]][..0] == [];
      }
    }
  }

  method GetWorkingCounts(tasks: Snapshot) returns (globalWorking: nat, workingByRepo: map<string, nat>)
    ensures globalWorking == CountWorking(tasks, None)
    ensures forall repoId ::
      (if repoId in workingByRepo then workingByRepo[repoId] else 0) == CountWorking(tasks, Some(repoId))
  {
    var workingTasks := WithStatus(tasks, Working);
    workingByRepo := map[];
    for k := 0 to |workingTasks|
      invariant forall repoId ::
        (if repoId in workingByRepo then workingByRepo[repoId] else 0) == CountRepo(workingTasks[..k], repoId)
    {
      var repoId := workingTasks[k].repoId;
      assert workingTasks[..k + 1][..k] == workingTasks[..k];
      workingByRepo := workingByRepo[repoId := (if repoId in workingByRepo then workingByRepo[repoId] else 0) + 1];
    }
    assert workingTasks[..|workingTasks|] == workingTasks;
    forall repoId ensures CountRepo(workingTasks, repoId) == CountWorking(tasks, Some(repoId)) {
      WorkingTasksCount(tasks, repoId);
    }
    WorkingTasksCount(tasks, "");
    globalWorking := |workingTasks|;
  }

  /** Repo capacity, and for a READY task satisfied dependencies. */
  predicate CanRun(q: Queue, limits: ConcurrencyLimits, desired: TaskStatus, task: Task) {
    && CountWorking(q.tasks, Some(task.repoId)) < limits.RepoMax(task.repoId)
    && (desired == Ready ==> DependencyStateOf(RowsOf(q.dependencies, task.id), q.tasks) == DependenciesReady)
  }

  function FirstRunnable(q: Queue, limits: ConcurrencyLimits, desired: TaskStatus, tasks: Snapshot): Option<Task> {
    if tasks == [] then None
    else if CanRun(q, limits, desired, tasks[0]) then Some(tasks[0])
    else FirstRunnable(q, limits, desired, tasks[1..])
  }

  function Candidates(q: Queue, desired: TaskStatus, order: OrderBy): Snapshot {
    SortTasks(WithStatus(q.tasks, desired), order)
  }

  function PickNext(q: Queue, limits: ConcurrencyLimits, desired: TaskStatus, order: OrderBy): Option<Task> {
    if CountWorking(q.tasks, None) >= limits.globalMax then None
    else FirstRunnable(q, limits, desired, Candidates(q, desired, order))
  }

  method CanRunTask(
    q: Queue, limits: ConcurrencyLimits, desired: TaskStatus, workingByRepo: map<string, nat>, task: Task)
      returns (canRun: bool)
    requires forall repoId ::
      (if repoId in workingByRepo then workingByRepo[repoId] else 0) == CountWorking(q.tasks, Some(repoId))
    ensures canRun == CanRun(q, limits, desired, task)
  {
    var repoWorking := if task.repoId in workingByRepo then workingByRepo[task.repoId] else 0;
    if repoWorking >= limits.RepoMax(task.repoId) {
      return false;
    }
    if desired != Ready {
      return true;
    }
    var summary := SummarizeDependencyRows(RowsOf(q.dependencies, task.id), q.tasks);
    return summary.state == DependenciesReady;
  }

  method PickNextTask(q: Queue, limits: ConcurrencyLimits, desired: TaskStatus, order: OrderBy)
      returns (picked: Option<Task>)
    ensures picked == PickNext(q, limits, desired, order)
  {
    var tasks := Candidates(q, desired, order);
    var globalWorking, workingByRepo := GetWorkingCounts(q.tasks);
    if globalWorking >= limits.globalMax {
      return None;
    }
    for k := 0 to |tasks|
      invariant FirstRunnable(q, limits, desired, tasks) == FirstRunnable(q, limits, desired, tasks[k..])
    {
      var canRun := CanRunTask(q, limits, desired, workingByRepo, tasks[k]);
      if canRun {
        return Some(tasks[k]);
      }
    }
    return None;
  }

  // The pick is the best candidate.

  /** The places of the WORKING tasks, of one repo or of all. */
  ghost function WorkingPlaces(tasks: Snapshot, repoId: Option<string>): set<int> {
    set i | 0 <= i < |tasks| && tasks[i].status == Working && (repoId.None? || tasks[i].repoId == repoId.value)
  }

  lemma {:induction false} CountWorkingSnoc(tasks: Snapshot, task: Task, repoId: Option<string>)
    ensures CountWorking(tasks + [task], repoId)
         == CountWorking(tasks, repoId) + if IsWorkingIn(task, repoId) then 1 else 0
  {
    if tasks != [] {
      CountWorkingSnoc(tasks[1..], task, repoId);
      assert (tasks + [task])[1..] == tasks[1..] + [task];
    }
  }

  lemma PlaceKept(tasks: Snapshot, repoId: Option<string>, i: int)
    requires tasks != [] && i != |tasks| - 1
    ensures i in WorkingPlaces(tasks, repoId) <==> i in WorkingPlaces(tasks[..|tasks| - 1], repoId)
  {
  }

  lemma WorkingPlacesGrow(tasks: Snapshot, repoId: Option<string>)
    requires tasks != []
    ensures |WorkingPlaces(tasks, repoId)|
         == |WorkingPlaces(tasks[..|tasks| - 1], repoId)| + if IsWorkingIn(Last(tasks), repoId) then 1 else 0
  {
    var before := WorkingPlaces(tasks[..|tasks| - 1], repoId);
    var last := if IsWorkingIn(Last(tasks), repoId) then {|tasks| - 1} else {};
    assert |tasks| - 1 !in before;
    assert WorkingPlaces(tasks, repoId) == before + last by {
      forall i ensures i in WorkingPlaces(tasks, repoId) <==> i in before + last {
        if i != |tasks| - 1 {
          PlaceKept(tasks, repoId, i);
        }
      }
    }
  }

  /** The count is the number of those places. */
  lemma {:induction false} CountWorkingExactly(tasks: Snapshot, repoId: Option<string>)
    ensures CountWorking(tasks, repoId) == |WorkingPlaces(tasks, repoId)|
  {
    if tasks == [] {
      assert WorkingPlaces(tasks, repoId) == {};
    } else {
      var front := tasks[..|tasks| - 1];
      assert tasks == front + [Last(tasks)];
      CountWorkingExactly(front, repoId);
      CountWorkingSnoc(front, Last(tasks), repoId);
      WorkingPlacesGrow(tasks, repoId);
    }
  }

  /** Fewer tasks work in the repo than its limit, which is 3 for a repo that is not registered. */
  ghost predicate HasFreePlace(q: Queue, limits: ConcurrencyLimits, repoId: string) {
    |WorkingPlaces(q.tasks, Some(repoId))| < if repoId in limits.repoMax then limits.repoMax[repoId] else 3
  }

  ghost predicate WaitsForNothing(q: Queue, id: string) {
    id in q.dependencies ==>
      forall k :: 0 <= k < |q.dependencies[id]| ==> IsOver(q.tasks, q.dependencies[id][k].dependsOnTaskId)
  }

  /** Task `i` may run: its repo has a free place, and a READY task waits for nothing. */
  ghost predicate Runnable(q: Queue, limits: ConcurrencyLimits, desired: TaskStatus, i: int) {
    && 0 <= i < |q.tasks|
    && q.tasks[i].status == desired
    && HasFreePlace(q, limits, q.tasks[i].repoId)
    && (desired == Ready ==> WaitsForNothing(q, q.tasks[i].id))
  }

  lemma RunnableExactly(q: Queue, limits: ConcurrencyLimits, desired: TaskStatus, i: int)
    requires 0 <= i < |q.tasks|
    ensures Runnable(q, limits, desired, i) <==> Competes(q, limits, desired, q.tasks[i])
  {
    CountWorkingExactly(q.tasks, Some(q.tasks[i].repoId));
    DependencyStateExactly(RowsOf(q.dependencies, q.tasks[i].id), q.tasks);
  }

  /** Earlier in `readyAt` order, and on a tie earlier in the cache. */
  ghost predicate Precedes(tasks: Snapshot, order: OrderBy, i: int, j: int)
    requires 0 <= i < |tasks| && 0 <= j < |tasks|
  {
    && InOrder(order, tasks[i].readyAt, tasks[j].readyAt)
    && (tasks[i].readyAt == tasks[j].readyAt ==> i <= j)
  }

  lemma {:induction false} FirstRunnableOfInsert(
    q: Queue, limits: ConcurrencyLimits, desired: TaskStatus, order: OrderBy, task: Task, sorted: Snapshot)
    requires Sorted(sorted, order)
    ensures var first := FirstRunnable(q, limits, desired, sorted);
            FirstRunnable(q, limits, desired, Insert(task, sorted, order))
            == if CanRun(q, limits, desired, task) && (first.None? || CompareBy(order, task, first.value) <= 0)
               then Some(task) else first
  {
    if sorted == [] || CompareBy(order, task, sorted[0]) <= 0 {
      InsertedFirst(q, limits, desired, order, task, sorted);
    } else {
      FirstRunnableOfInsert(q, limits, desired, order, task, sorted[1..]);
      assert ([sorted[0]] + Insert(task, sorted[1..], order))[1..] == Insert(task, sorted[1..], order);
    }
  }

  lemma InsertedFirst(
    q: Queue, limits: ConcurrencyLimits, desired: TaskStatus, order: OrderBy, task: Task, sorted: Snapshot)
    requires Sorted(sorted, order) && (sorted == [] || CompareBy(order, task, sorted[0]) <= 0)
    ensures var first := FirstRunnable(q, limits, desired, sorted);
            FirstRunnable(q, limits, desired, Insert(task, sorted, order))
            == if CanRun(q, limits, desired, task) && (first.None? || CompareBy(order, task, first.value) <= 0)
               then Some(task) else first
  {
    FirstRunnableIsMember(q, limits, desired, sorted);
    assert ([task] + sorted)[1..] == sorted;
    if sorted != [] {
      NoneBeforeHead(task, sorted, order);
      var first := FirstRunnable(q, limits, desired, sorted);
      if first.Some? {
        ComparesInOrder(order, task, first.value);
      }
    }
  }

  lemma {:induction false} FirstRunnableIsMember(
    q: Queue, limits: ConcurrencyLimits, desired: TaskStatus, tasks: Snapshot)
    ensures var first := FirstRunnable(q, limits, desired, tasks);
            && (first.Some? ==> CanRun(q, limits, desired, first.value)
                                && exists i :: 0 <= i < |tasks| && tasks[i] == first.value)
            && (first.None? ==> forall i :: 0 <= i < |tasks| ==> !CanRun(q, limits, desired, tasks[i]))
  {
    if tasks != [] && !CanRun(q, limits, desired, tasks[0]) {
      FirstRunnableIsMember(q, limits, desired, tasks[1..]);
      var first := FirstRunnable(q, limits, desired, tasks[1..]);
      if first.Some? {
        var i :| 0 <= i < |tasks[1..]| && tasks[1..][i] == first.value;
        assert tasks[i + 1] == first.value;
      }
    }
  }

  ghost predicate Competes(q: Queue, limits: ConcurrencyLimits, desired: TaskStatus, task: Task) {
    task.status == desired && CanRun(q, limits, desired, task)
  }

  ghost predicate IsBest(
    q: Queue, limits: ConcurrencyLimits, desired: TaskStatus, order: OrderBy, tasks: Snapshot, i: int)
  {
    && 0 <= i < |tasks| && Competes(q, limits, desired, tasks[i])
    && forall j :: 0 <= j < |tasks| && Competes(q, limits, desired, tasks[j]) ==> Precedes(tasks, order, i, j)
  }

  ghost predicate NoneCompetes(q: Queue, limits: ConcurrencyLimits, desired: TaskStatus, tasks: Snapshot) {
    forall j :: 0 <= j < |tasks| ==> !Competes(q, limits, desired, tasks[j])
  }

  lemma TransitiveHere(order: OrderBy, a: Option<int>, b: Option<int>, c: Option<int>)
    requires InOrder(order, b, c)
    ensures InOrder(order, a, b) ==> InOrder(order, a, c)
    ensures !InOrder(order, a, b) ==> InOrder(order, b, a) && a != b
  {
  }

  /** The best of a longer list: its head, or the best of its tail. */
  lemma BestOfTail(
    q: Queue, limits: ConcurrencyLimits, desired: TaskStatus, order: OrderBy, tasks: Snapshot, i: int)
    requires tasks != [] && IsBest(q, limits, desired, order, tasks[1..], i)
    ensures if Competes(q, limits, desired, tasks[0]) && CompareBy(order, tasks[0], tasks[i + 1]) <= 0
            then IsBest(q, limits, desired, order, tasks, 0)
            else IsBest(q, limits, desired, order, tasks, i + 1)
  {
    var rest := tasks[1..];
    ComparesInOrder(order, tasks[0], tasks[i + 1]);
    var best := if Competes(q, limits, desired, tasks[0]) && CompareBy(order, tasks[0], tasks[i + 1]) <= 0
      then 0 else i + 1;
    forall j | 0 <= j < |tasks| && Competes(q, limits, desired, tasks[j]) ensures Precedes(tasks, order, best, j) {
      if j > 0 {
        assert rest[j - 1] == tasks[j] && rest[i] == tasks[i + 1];
        assert Precedes(rest, order, i, j - 1);
        TransitiveHere(order, tasks[0].readyAt, tasks[i + 1].readyAt, tasks[j].readyAt);
      }
    }
  }

  lemma BestAlone(q: Queue, limits: ConcurrencyLimits, desired: TaskStatus, order: OrderBy, tasks: Snapshot)
    requires tasks != [] && NoneCompetes(q, limits, desired, tasks[1..])
    ensures if Competes(q, limits, desired, tasks[0]) then IsBest(q, limits, desired, order, tasks, 0)
            else NoneCompetes(q, limits, desired, tasks)
  {
    forall j | 0 < j < |tasks| ensures !Competes(q, limits, desired, tasks[j]) {
      assert tasks[1..][j - 1] == tasks[j];
    }
  }

  /** What the first runnable task of the sorted candidates is, once the list's head is added. */
  lemma FirstRunnableOfCons(q: Queue, limits: ConcurrencyLimits, desired: TaskStatus, order: OrderBy, tasks: Snapshot)
    requires tasks != []
    ensures var rest := FirstRunnable(q, limits, desired, SortTasks(WithStatus(tasks[1..], desired), order));
            FirstRunnable(q, limits, desired, SortTasks(WithStatus(tasks, desired), order))
            == if Competes(q, limits, desired, tasks[0]) && (rest.None? || CompareBy(order, tasks[0], rest.value) <= 0)
               then Some(tasks[0]) else rest
  {
    if tasks[0].status == desired {
      var candidates := WithStatus(tasks[1..], desired);
      SortTasksSorts(candidates, order);
      FirstRunnableOfInsert(q, limits, desired, order, tasks[0], SortTasks(candidates, order));
      assert WithStatus(tasks, desired)[1..] == candidates;
    }
  }

  lemma {:induction false} FirstRunnableIsBest(
    q: Queue, limits: ConcurrencyLimits, desired: TaskStatus, order: OrderBy, tasks: Snapshot)
    ensures var first := FirstRunnable(q, limits, desired, SortTasks(WithStatus(tasks, desired), order));
            if first.None? then NoneCompetes(q, limits, desired, tasks)
            else exists i :: IsBest(q, limits, desired, order, tasks, i) && tasks[i] == first.value
  {
    if tasks != [] {
      FirstRunnableIsBest(q, limits, desired, order, tasks[1..]);
      FirstRunnableOfCons(q, limits, desired, order, tasks);
      var first := FirstRunnable(q, limits, desired, SortTasks(WithStatus(tasks[1..], desired), order));
      if first.None? {
        BestAlone(q, limits, desired, order, tasks);
      } else {
        var i :| IsBest(q, limits, desired, order, tasks[1..], i) && tasks[1..][i] == first.value;
        BestOfTail(q, limits, desired, order, tasks, i);
        assert tasks[i + 1] == first.value;
      }
    }
  }

  /**
   The picked task is the first runnable one in `readyAt` order, cache order breaking ties; nothing
   is picked only when the global limit is reached or no task can run.
   */
  lemma PickIsOptimal(q: Queue, limits: ConcurrencyLimits, desired: TaskStatus, order: OrderBy)
    ensures var picked := PickNext(q, limits, desired, order);
            && (picked.None? <==> |WorkingPlaces(q.tasks, None)| >= limits.globalMax
                                  || forall i :: !Runnable(q, limits, desired, i))
            && (picked.Some? ==>
                  exists i :: Runnable(q, limits, desired, i) && q.tasks[i] == picked.value
                    && forall j :: Runnable(q, limits, desired, j) ==> Precedes(q.tasks, order, i, j))
  {
    FirstRunnableIsBest(q, limits, desired, order, q.tasks);
    CountWorkingExactly(q.tasks, None);
    forall i | 0 <= i < |q.tasks| ensures Runnable(q, limits, desired, i) <==> Competes(q, limits, desired, q.tasks[i]) {
      RunnableExactly(q, limits, desired, i);
    }
    var picked := PickNext(q, limits, desired, order);
    if picked.Some? {
      var i :| IsBest(q, limits, desired, order, q.tasks, i) && q.tasks[i] == picked.value;
      assert Runnable(q, limits, desired, i);
    } else if CountWorking(q.tasks, None) < limits.globalMax {
      assert NoneCompetes(q, limits, desired, q.tasks);
    }
  }

  /** The same on the numbers, for the READY queue and the RESUMING queue. */
  lemma PickedTimes(q: Queue, limits: ConcurrencyLimits, desired: TaskStatus, j: int)
    requires Runnable(q, limits, desired, j)
    ensures var ascending := PickNext(q, limits, desired, Ascending);
            ascending.Some? && q.tasks[j].readyAt.Some? ==>
              ascending.value.readyAt.Some? && ascending.value.readyAt.value <= q.tasks[j].readyAt.value
    ensures var descending := PickNext(q, limits, desired, Descending);
            descending.Some? && descending.value.readyAt.Some? ==>
              q.tasks[j].readyAt.Some? && q.tasks[j].readyAt.value <= descending.value.readyAt.value
  {
    PickIsOptimal(q, limits, desired, Ascending);
    PickIsOptimal(q, limits, desired, Descending);
  }
}
