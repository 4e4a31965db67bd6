/**
 * The task list of the family task board: the task record, the status a
 * task is shown with, the today / week / all list with its ordering, the
 * overdue badge count and the completion toggle.
 *
 * "Now" is a parameter: every function here is evaluated at one instant.
 */
module Tasks {
  import opened Wrappers
  import opened Calendar
  import opened Seqs
  import opened Sorting

  type TaskId = string
  type MemberId = string
  type CategoryId = string

  /** The status column: the only statuses ever stored. */
  datatype Status = Pending | InProgress | Completed

  datatype Priority = Low | Medium | High

  /**
   * A task row, reduced to the columns the task list and the report read.
   * `dueDate` is the instant the stored due date denotes; a null or empty
   * due date is `None`.
   */
  datatype Task = Task(
    id: TaskId,
    categoryId: Option<CategoryId>,
    status: Status,
    priority: Priority,
    dueDate: Option<Instant>,
    completedBy: Option<MemberId>,
    completedAt: Option<Instant>)

  /** The status a task is shown with: its stored status, or overdue. */
  datatype EffectiveStatus = Overdue | Stored(status: Status)

  /**
   * A completed task is completed whatever its due date; any other task is
   * overdue exactly when it has a due instant that lies before `now`, and
   * otherwise keeps its stored status. Nothing is stored.
   */
  function StatusAt(t: Task, now: Instant): (e: EffectiveStatus)
    ensures t.status == Completed ==> e == Stored(Completed)
    ensures e == Overdue <==> t.status != Completed && t.dueDate.Some? && t.dueDate.value < now
    ensures e != Overdue ==> e == Stored(t.status)
  {
    if t.status == Completed then Stored(Completed)
    else if t.dueDate.Some? && t.dueDate.value < now then Overdue
    else Stored(t.status)
  }

  /** Once overdue, a task stays overdue as time passes, until its stored status changes. */
  lemma OverdueStaysOverdue(t: Task, now: Instant, later: Instant)
    requires now <= later
    ensures StatusAt(t, now) == Overdue ==> StatusAt(t, later) == Overdue
    ensures StatusAt(t, later) != Overdue ==> StatusAt(t, now) == StatusAt(t, later)
  {
  }

  /** Position in the list: overdue, then pending, then in progress, then completed. */
  function Rank(e: EffectiveStatus): (r: int)
    ensures 0 <= r <= 3
  {
    match e
    case Overdue => 0
    case Stored(Pending) => 1
    case Stored(InProgress) => 2
    case Stored(Completed) => 3
  }

  /** The rank order is a strict order on the four shown statuses. */
  lemma RankOrder(a: EffectiveStatus, b: EffectiveStatus)
    ensures Rank(a) == Rank(b) ==> a == b
    ensures Rank(Overdue) < Rank(Stored(Pending)) < Rank(Stored(InProgress)) < Rank(Stored(Completed))
  {
  }

  /** The list's secondary key: the due instant, an undated task counting as instant 0. */
  function DueKey(t: Task): (k: int)
    ensures t.dueDate.Some? ==> k == t.dueDate.value
    ensures t.dueDate.None? ==> k == 0
  {
    if t.dueDate.Some? then t.dueDate.value else 0
  }

  datatype TaskFilter = All | Today | Week

  /**
   * Whether the list under filter `f` shows task `t`: every task under
   * `All`; under `Today` and `Week` only dated tasks due from today's local
   * midnight to one day, resp. seven days, later (end excluded).
   */
  predicate Shown(f: TaskFilter, now: Instant, t: Task)
    ensures Shown(f, now, t) <==>
      f == All ||
      (t.dueDate.Some? &&
       StartOfDay(now) <= t.dueDate.value < StartOfDay(now) + (if f == Today then 1 else 7) * MsPerDay)
  {
    if f == All then true
    else if t.dueDate.None? then f == All
    else
      var today := StartOfDay(now);
      var due := t.dueDate.value;
      if f == Today then today <= due < today + MsPerDay
      else today <= due < today + 7 * MsPerDay
  }

  function ShownBy(f: TaskFilter, now: Instant): Task -> bool
  {
    t => Shown(f, now, t)
  }

  /**
   * The comparator of the list as written: the difference of the shown
   * statuses' ranks, or when they are equal the difference of the due
   * instants (undated as 0). Negative means `a` goes first.
   */
  function CompareTasks(now: Instant, a: Task, b: Task): int
  {
    var ra, rb := Rank(StatusAt(a, now)), Rank(StatusAt(b, now));
    if ra != rb then ra - rb else DueKey(a) - DueKey(b)
  }

  /**
   * The comparator of the list, as a key: shown-status rank, then due
   * instant. Comparing keys gives the sign of the comparator.
   */
  function ListKey(now: Instant): (key: Task -> Key)
    ensures forall a, b :: KeyLe(key(a), key(b)) <==> CompareTasks(now, a, b) <= 0
    ensures forall a, b :: KeyLt(key(a), key(b)) <==> CompareTasks(now, a, b) < 0
  {
    t => (Rank(StatusAt(t, now)), DueKey(t))
  }

  /** The tasks the list shows under filter `f`, in the order it shows them. */
  function FilteredTasks(tasks: seq<Task>, f: TaskFilter, now: Instant): (r: seq<Task>)
    ensures multiset(r) == multiset(Filter(tasks, ShownBy(f, now)))
    ensures Sorted(r, ListKey(now))
  {
    SortBy(Filter(tasks, ShownBy(f, now)), ListKey(now))
  }

  /** Which tasks each filter selects. */
  lemma FilteredTasksMembers(tasks: seq<Task>, f: TaskFilter, now: Instant, t: Task)
    ensures t in FilteredTasks(tasks, f, now) <==> t in tasks && Shown(f, now, t)
    ensures f == All ==> (t in FilteredTasks(tasks, f, now) <==> t in tasks)
    ensures f != All && t in FilteredTasks(tasks, f, now) ==> t.dueDate.Some?
    ensures f == Today ==> (t in FilteredTasks(tasks, f, now) <==>
      t in tasks && t.dueDate.Some? && StartOfDay(now) <= t.dueDate.value < StartOfDay(now) + MsPerDay)
    ensures f == Week ==> (t in FilteredTasks(tasks, f, now) <==>
      t in tasks && t.dueDate.Some? && StartOfDay(now) <= t.dueDate.value < StartOfDay(now) + 7 * MsPerDay)
  {
    var r := FilteredTasks(tasks, f, now);
    var shown := Filter(tasks, ShownBy(f, now));
    FilterMembers(tasks, ShownBy(f, now));
    assert t in r <==> t in multiset(r);
    assert t in shown <==> t in multiset(shown);
  }

  /** The list is a rearrangement of a selection of the tasks: nothing is added or duplicated. */
  lemma FilteredTasksSubmultiset(tasks: seq<Task>, f: TaskFilter, now: Instant)
    ensures multiset(FilteredTasks(tasks, f, now)) <= multiset(tasks)
    ensures |FilteredTasks(tasks, f, now)| <= |tasks|
  {
    FilterSubMultiset(tasks, ShownBy(f, now));
  }

  /** The `All` list shows every task, each exactly as often as it occurs. */
  lemma AllShowsEverything(tasks: seq<Task>, now: Instant)
    ensures multiset(FilteredTasks(tasks, All, now)) == multiset(tasks)
  {
    FilterKeepsAll(tasks, ShownBy(All, now));
  }

  /** What the `Today` list shows, the `Week` list shows too. */
  lemma TodayWithinWeek(tasks: seq<Task>, now: Instant)
    ensures multiset(FilteredTasks(tasks, Today, now)) <= multiset(FilteredTasks(tasks, Week, now))
  {
    FilterOfWeaker(tasks, ShownBy(Today, now), ShownBy(Week, now));
  }

  /**
   * The list order: by rank of the shown status, and within one rank by
   * ascending due instant (undated tasks as instant 0).
   */
  lemma FilteredTasksOrder(tasks: seq<Task>, f: TaskFilter, now: Instant)
    ensures var r := FilteredTasks(tasks, f, now);
      forall i, j :: 0 <= i < j < |r| ==>
        Rank(StatusAt(r[i], now)) <= Rank(StatusAt(r[j], now)) &&
        (Rank(StatusAt(r[i], now)) == Rank(StatusAt(r[j], now)) ==> DueKey(r[i]) <= DueKey(r[j]))
    ensures var r := FilteredTasks(tasks, f, now);
      forall i, j :: 0 <= i < j < |r| ==> CompareTasks(now, r[i], r[j]) <= 0
  {
    var r := FilteredTasks(tasks, f, now);
    forall i, j | 0 <= i < j < |r|
      ensures Rank(StatusAt(r[i], now)) <= Rank(StatusAt(r[j], now))
      ensures Rank(StatusAt(r[i], now)) == Rank(StatusAt(r[j], now)) ==> DueKey(r[i]) <= DueKey(r[j])
    {
      assert KeyLe(ListKey(now)(r[i]), ListKey(now)(r[j]));
    }
  }

  /**
   * The list is exactly the stable sort of the selected tasks by the
   * comparator: any arrangement that is ordered by it and keeps tasks that
   * compare equal in their stored order is this list.
   */
  lemma FilteredTasksIsStableSort(tasks: seq<Task>, f: TaskFilter, now: Instant, r: seq<Task>)
    requires Sorted(r, ListKey(now))
    requires forall k :: WithKey(r, ListKey(now), k) == WithKey(Filter(tasks, ShownBy(f, now)), ListKey(now), k)
    ensures r == FilteredTasks(tasks, f, now)
  {
    StableSortIsSortBy(Filter(tasks, ShownBy(f, now)), r, ListKey(now));
  }

  /** Tasks that compare equal keep their stored order in the list. */
  lemma FilteredTasksStable(tasks: seq<Task>, f: TaskFilter, now: Instant, k: Key)
    ensures WithKey(FilteredTasks(tasks, f, now), ListKey(now), k) == WithKey(Filter(tasks, ShownBy(f, now)), ListKey(now), k)
  {
    SortByStable(Filter(tasks, ShownBy(f, now)), ListKey(now), k);
  }

  /** The overdue test of the badge count. */
  function IsOverdueAt(now: Instant): (p: Task -> bool)
    ensures forall t :: p(t) <==> t.status != Completed && t.dueDate.Some? && t.dueDate.value < now
  {
    t => StatusAt(t, now) == Overdue
  }

  /** Pending or in progress: exactly the tasks that are not completed. */
  function IsOpen(t: Task): (b: bool)
    ensures b <==> t.status != Completed
  {
    t.status == Pending || t.status == InProgress
  }

  /** The overdue badge: how many tasks are shown as overdue. */
  function OverdueCount(tasks: seq<Task>, now: Instant): (n: nat)
    ensures n <= |tasks|
  {
    |Filter(tasks, IsOverdueAt(now))|
  }

  /**
   * Only open tasks count as overdue, and the count never drops as time
   * passes while the tasks stay the same.
   */
  lemma OverdueCountBounds(tasks: seq<Task>, now: Instant, later: Instant)
    requires now <= later
    ensures OverdueCount(tasks, now) <= |Filter(tasks, IsOpen)|
    ensures OverdueCount(tasks, now) <= OverdueCount(tasks, later)
  {
    FilterOfWeaker(tasks, IsOverdueAt(now), IsOpen);
    forall t | t in tasks && IsOverdueAt(now)(t)
      ensures IsOverdueAt(later)(t)
    {
      OverdueStaysOverdue(t, now, later);
    }
    FilterOfWeaker(tasks, IsOverdueAt(now), IsOverdueAt(later));
  }

  /** No task is overdue exactly when the badge shows zero. */
  lemma OverdueCountZero(tasks: seq<Task>, now: Instant)
    ensures OverdueCount(tasks, now) == 0 <==> forall t :: t in tasks ==> StatusAt(t, now) != Overdue
  {
    FilterMembers(tasks, IsOverdueAt(now));
    var r := Filter(tasks, IsOverdueAt(now));
    if r != [] {
      assert r[0] in r;
    }
  }

  /** The columns the completion toggle writes. */
  datatype TaskUpdate = TaskUpdate(status: Status, completedAt: Option<Instant>, completedBy: Option<MemberId>)

  /**
   * The toggle: a completed task is reopened as pending, any other task is
   * completed, at `now`, by the acting member (`None` when there is none).
   */
  function ToggleUpdate(t: Task, now: Instant, actor: Option<MemberId>): (u: TaskUpdate)
    ensures u.status == Completed <==> t.status != Completed
    ensures u.status != Completed ==> u.status == Pending
    ensures u.completedAt.Some? <==> u.status == Completed
    ensures u.status == Completed ==> u.completedAt == Some(now) && u.completedBy == actor
    ensures u.status != Completed ==> u.completedBy.None?
  {
    var status := if t.status == Completed then Pending else Completed;
    TaskUpdate(
      status,
      if status == Completed then Some(now) else None,
      if status == Completed then actor else None)
  }

  /** The row after the update: the three written columns change, nothing else. */
  function Apply(t: Task, u: TaskUpdate): (r: Task)
    ensures r.status == u.status && r.completedAt == u.completedAt && r.completedBy == u.completedBy
    ensures r.id == t.id && r.categoryId == t.categoryId && r.priority == t.priority && r.dueDate == t.dueDate
  {
    t.(status := u.status, completedAt := u.completedAt, completedBy := u.completedBy)
  }

  /** The row after the toggle. */
  function Toggled(t: Task, now: Instant, actor: Option<MemberId>): (r: Task)
    ensures r.status == (if t.status == Completed then Pending else Completed)
    ensures r.status == Completed ==> r.completedAt == Some(now) && r.completedBy == actor
    ensures r.status != Completed ==> r.completedAt.None? && r.completedBy.None?
    ensures r.id == t.id && r.categoryId == t.categoryId && r.priority == t.priority && r.dueDate == t.dueDate
  {
    Apply(t, ToggleUpdate(t, now, actor))
  }

  /** A row whose completion columns agree with its status. */
  predicate CompletionRecorded(t: Task)
  {
    (t.status == Completed <==> t.completedAt.Some?) &&
    (t.status != Completed ==> t.completedBy.None?)
  }

  /**
   * After a toggle the completion columns agree with the status; a task
   * just completed is shown completed at every later (or earlier) instant.
   */
  lemma ToggleKeepsRecord(t: Task, now: Instant, actor: Option<MemberId>, when: Instant)
    ensures CompletionRecorded(Toggled(t, now, actor))
    ensures t.status != Completed ==> StatusAt(Toggled(t, now, actor), when) == Stored(Completed)
  {
  }

  /** Toggling twice leaves a completed task completed and turns an open task into a pending one. */
  lemma ToggleTwice(t: Task, now1: Instant, actor1: Option<MemberId>, now2: Instant, actor2: Option<MemberId>)
    ensures var t2 := Toggled(Toggled(t, now1, actor1), now2, actor2);
      t2.status == (if t.status == Completed then Completed else Pending) &&
      (t.status == Completed ==> t2.completedAt == Some(now2) && t2.completedBy == actor2) &&
      (t.status != Completed ==> t2.completedAt.None? && t2.completedBy.None?)
  {
  }
}
