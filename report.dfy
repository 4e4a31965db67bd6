/**
 * The monthly report: the tasks due in the selected month, their status
 * counts and completion rate, and the per-member, per-category and
 * per-priority breakdowns.
 */
module Report {
  import opened Wrappers
  import opened Calendar
  import opened Seqs
  import opened Sorting
  import opened Tasks

  datatype Member = Member(id: MemberId, name: string)

  datatype Category = Category(id: CategoryId, name: string)

  /** A row linking a task to one of the members it is assigned to. */
  datatype Assignment = Assignment(taskId: TaskId, memberId: MemberId)

  /**
   * `Math.round(completed / total * 100)`, or 0 for an empty total: the
   * percentage rounded to the nearest integer, halves rounded up.
   */
  function Rate(completed: nat, total: nat): (r: int)
    ensures total == 0 ==> r == 0
    ensures total > 0 ==> 200 * completed - total < 2 * total * r <= 200 * completed + total
    ensures completed <= total ==> 0 <= r <= 100
  {
    if total == 0 then 0
    else
      RateBounds(completed, total);
      (200 * completed + total) / (2 * total)
  }

  lemma RateBounds(completed: nat, total: nat)
    requires total > 0
    ensures var r := (200 * completed + total) / (2 * total);
      200 * completed - total < 2 * total * r <= 200 * completed + total &&
      (completed <= total ==> 0 <= r <= 100)
  {
    var a, n := 200 * completed + total, 2 * total;
    var r := a / n;
    assert n * r + a % n == a;
    assert 0 <= a % n < n;
    MulMono(n, 101, r);
    MulMono(n, r, -1);
  }

  lemma MulMono(n: int, a: int, b: int)
    requires n > 0
    ensures a <= b ==> n * a <= n * b
  {
    assert n * b == n * a + n * (b - a);
    MulAwayFromZero(n, b - a);
  }

  /** Rates are monotone in the completed count. */
  lemma RateMonotone(c1: nat, c2: nat, total: nat)
    requires c1 <= c2
    ensures Rate(c1, total) <= Rate(c2, total)
  {
    if total > 0 {
      MulMono(2 * total, Rate(c2, total) + 1, Rate(c1, total));
    }
  }

  /** All done is 100, nothing done is 0. */
  lemma RateExtremes(total: nat)
    requires total > 0
    ensures Rate(total, total) == 100 && Rate(0, total) == 0
  {
    MulMono(2 * total, 101, Rate(total, total));
    MulMono(2 * total, Rate(total, total), 99);
    MulMono(2 * total, 1, Rate(0, total));
    MulMono(2 * total, Rate(0, total), -1);
  }

  /** Whether a task is due inside the report window of month `month` of `year`. */
  predicate InMonth(year: int, month: int, t: Task)
    ensures 0 <= month < 12 ==>
      var fy := FullYear(year);
      var first := DayFromYear(fy) + DaysBeforeMonth(fy, month);
      (InMonth(year, month, t) <==>
        t.dueDate.Some? &&
        first * MsPerDay <= t.dueDate.value <= (first + DaysInMonth(fy, month) - 1) * MsPerDay + 86399 * MsPerSecond)
  {
    t.dueDate.Some? && MonthStart(year, month) <= t.dueDate.value <= MonthEnd(year, month)
  }

  function InMonthOf(year: int, month: int): Task -> bool
  {
    t => InMonth(year, month, t)
  }

  /** The completed test of the report: the complement of the open test. */
  function IsCompleted(t: Task): (b: bool)
    ensures b <==> !IsOpen(t)
  {
    t.status == Completed
  }

  function HasPriority(p: Priority): Task -> bool
  {
    (t: Task) => t.priority == p
  }

  function MonthTasks(tasks: seq<Task>, year: int, month: int): (r: seq<Task>)
    ensures |r| <= |tasks|
  {
    Filter(tasks, InMonthOf(year, month))
  }

  function ByMember(mid: MemberId): Assignment -> bool
  {
    (a: Assignment) => a.memberId == mid
  }

  function TaskIdOf(a: Assignment): TaskId
  {
    a.taskId
  }

  function InCategory(cid: CategoryId): Task -> bool
  {
    (t: Task) => t.categoryId == Some(cid)
  }

  /** The ids of the tasks assigned to member `mid`, one per assignment row. */
  function TaskIdsOf(assignments: seq<Assignment>, mid: MemberId): (ids: seq<TaskId>)
    ensures |ids| <= |assignments|
    ensures forall id :: id in ids <==> Assignment(id, mid) in assignments
  {
    AssignedIds(assignments, mid);
    Map(Filter(assignments, ByMember(mid)), TaskIdOf)
  }

  lemma AssignedIds(assignments: seq<Assignment>, mid: MemberId)
    ensures forall id :: id in Map(Filter(assignments, ByMember(mid)), TaskIdOf) <==> Assignment(id, mid) in assignments
  {
    var mine := Filter(assignments, ByMember(mid));
    var ids := Map(mine, TaskIdOf);
    FilterMembers(assignments, ByMember(mid));
    forall id
      ensures id in ids <==> Assignment(id, mid) in assignments
    {
      if id in ids {
        var i :| 0 <= i < |ids| && ids[i] == id;
        assert mine[i] in mine;
      }
      if Assignment(id, mid) in assignments {
        assert Assignment(id, mid) in mine;
        var i :| 0 <= i < |mine| && mine[i] == Assignment(id, mid);
        assert ids[i] == id;
      }
    }
  }

  /**
   * The `memberTaskIds.includes(t.id)` test: a task counts for a member
   * exactly when some assignment row links the two.
   */
  function AssignedTo(assignments: seq<Assignment>, mid: MemberId): (p: Task -> bool)
    ensures forall t :: p(t) <==> Assignment(t.id, mid) in assignments
  {
    (t: Task) => t.id in TaskIdsOf(assignments, mid)
  }

  datatype MemberStat = MemberStat(member: Member, total: nat, completed: nat, rate: int)

  datatype CategoryStat = CategoryStat(category: Category, total: nat, completed: nat, rate: int)

  /** The month's tasks bucketed by priority. */
  datatype PriorityStats = PriorityStats(high: seq<Task>, medium: seq<Task>, low: seq<Task>)

  /** The statistics of one member over the month's tasks. */
  function MemberStatOf(monthTasks: seq<Task>, assignments: seq<Assignment>, member: Member): (s: MemberStat)
    ensures s.member == member
    ensures s.completed <= s.total <= |monthTasks|
    ensures 0 <= s.rate <= 100
  {
    var mine := Filter(monthTasks, AssignedTo(assignments, member.id));
    var done := Filter(mine, IsCompleted);
    MemberStat(member, |mine|, |done|, Rate(|done|, |mine|))
  }

  function MemberStatBy(monthTasks: seq<Task>, assignments: seq<Assignment>): Member -> MemberStat
  {
    m => MemberStatOf(monthTasks, assignments, m)
  }

  function CategoryStatOf(monthTasks: seq<Task>, category: Category): (s: CategoryStat)
    ensures s.category == category
    ensures s.completed <= s.total <= |monthTasks|
    ensures 0 <= s.rate <= 100
  {
    var mine := Filter(monthTasks, InCategory(category.id));
    var done := Filter(mine, IsCompleted);
    CategoryStat(category, |mine|, |done|, Rate(|done|, |mine|))
  }

  function CategoryStatBy(monthTasks: seq<Task>): Category -> CategoryStat
  {
    c => CategoryStatOf(monthTasks, c)
  }

  function MemberActive(s: MemberStat): bool
  {
    s.total > 0
  }

  function CategoryActive(s: CategoryStat): bool
  {
    s.total > 0
  }

  /** Descending by rate, as a key of the ascending sort. */
  function ByRateDesc(s: MemberStat): Key
  {
    (-s.rate, 0)
  }

  /** Descending by total, as a key of the ascending sort. */
  function ByTotalDesc(s: CategoryStat): Key
  {
    (0 - s.total as int, 0)
  }

  /**
   * The member breakdown: the statistics of the members with a positive
   * total, each as often as its member is listed, sorted by rate, highest
   * first.
   */
  function MemberStats(monthTasks: seq<Task>, assignments: seq<Assignment>, members: seq<Member>): (r: seq<MemberStat>)
    ensures multiset(r) == multiset(Filter(Map(members, MemberStatBy(monthTasks, assignments)), MemberActive))
    ensures |r| == |Filter(Map(members, MemberStatBy(monthTasks, assignments)), MemberActive)| <= |members|
    ensures Sorted(r, ByRateDesc)
  {
    var all := Map(members, MemberStatBy(monthTasks, assignments));
    SortBy(Filter(all, MemberActive), ByRateDesc)
  }

  /**
   * The category breakdown: the statistics of the categories with a
   * positive total, each as often as its category is listed, sorted by task
   * count, largest first.
   */
  function CategoryStats(monthTasks: seq<Task>, categories: seq<Category>): (r: seq<CategoryStat>)
    ensures multiset(r) == multiset(Filter(Map(categories, CategoryStatBy(monthTasks)), CategoryActive))
    ensures |r| == |Filter(Map(categories, CategoryStatBy(monthTasks)), CategoryActive)| <= |categories|
    ensures Sorted(r, ByTotalDesc)
  {
    var all := Map(categories, CategoryStatBy(monthTasks));
    SortBy(Filter(all, CategoryActive), ByTotalDesc)
  }

  datatype MonthReport = MonthReport(
    total: nat,
    completed: nat,
    overdue: nat,
    pending: nat,
    completionRate: int,
    memberStats: seq<MemberStat>,
    categoryStats: seq<CategoryStat>,
    priorityStats: PriorityStats,
    monthTasks: seq<Task>)

  /** The report of month `month` (0 = January) of `year`, evaluated at `now`. */
  function ReportData(tasks: seq<Task>, assignments: seq<Assignment>, members: seq<Member>,
                      categories: seq<Category>, month: int, year: int, now: Instant): (r: MonthReport)
    ensures r.total == |r.monthTasks| <= |tasks|
    ensures r.completed <= r.total && r.pending <= r.total && r.overdue <= r.total
    ensures 0 <= r.completionRate <= 100
  {
    var monthTasks := MonthTasks(tasks, year, month);
    var total := |monthTasks|;
    var completed := |Filter(monthTasks, IsCompleted)|;
    var overdue := |Filter(monthTasks, IsOverdueAt(now))|;
    var pending := |Filter(monthTasks, IsOpen)|;
    MonthReport(
      total, completed, overdue, pending,
      Rate(completed, total),
      MemberStats(monthTasks, assignments, members),
      CategoryStats(monthTasks, categories),
      PriorityStats(
        Filter(monthTasks, HasPriority(High)),
        Filter(monthTasks, HasPriority(Medium)),
        Filter(monthTasks, HasPriority(Low))),
      monthTasks)
  }

  /**
   * The tasks of the report are the dated tasks due from midnight of the
   * month's first day to 23:59:59 of its last day, both ends included.
   */
  lemma MonthTasksWindow(tasks: seq<Task>, assignments: seq<Assignment>, members: seq<Member>,
                         categories: seq<Category>, month: int, year: int, now: Instant, t: Task)
    requires 0 <= month < 12
    ensures var r := ReportData(tasks, assignments, members, categories, month, year, now);
      var first := MakeDay(FullYear(year), month, 1) * MsPerDay;
      var last := MakeDay(FullYear(year), month, DaysInMonth(FullYear(year), month)) * MsPerDay;
      t in r.monthTasks <==>
        t in tasks && t.dueDate.Some? && first <= t.dueDate.value <= last + 86399 * MsPerSecond
  {
    FilterMembers(tasks, InMonthOf(year, month));
    MonthWindow(year, month);
  }

  /**
   * The windows of consecutive months do not overlap, across the turn of
   * the year too: a task is in at most one of them. The last 999 ms of a
   * month lie in neither (where the `Date` constructor does not reinterpret
   * the next year: from -1 to 0 and from 99 to 100 the next window is far away).
   */
  lemma MonthWindowsDisjoint(year: int, month: int, t: Task)
    requires 0 <= month < 12
    ensures var next := if month == 11 then (year + 1, 0) else (year, month + 1);
      !(InMonth(year, month, t) && InMonth(next.0, next.1, t))
    ensures var next := if month == 11 then (year + 1, 0) else (year, month + 1);
      (month < 11 || (year != -1 && year != 99)) &&
      t.dueDate.Some? && MonthEnd(year, month) < t.dueDate.value < MonthEnd(year, month) + MsPerSecond
      ==> !InMonth(year, month, t) && !InMonth(next.0, next.1, t)
  {
    if month < 11 || (year != -1 && year != 99) {
      NextWindowFollows(year, month);
      MonthWindow(year, month);
    } else {
      CenturyWindowsApart(year, t);
    }
  }

  /** December of 1999 (year 99) and January of year 100 are far apart; so are December of -1 and January of 1900 (year 0). */
  lemma CenturyWindowsApart(year: int, t: Task)
    requires year == -1 || year == 99
    ensures !(InMonth(year, 11, t) && InMonth(year + 1, 0, t))
  {
    assert FullYear(year) == if year == 99 then 1999 else -1;
    assert FullYear(year + 1) == if year == 99 then 100 else 1900;
  }

  /**
   * Every task of the month is either completed or still open, so the
   * completed and pending counts add up to the total; overdue tasks are
   * among the pending ones; the completion rate is the rounded percentage
   * of completed tasks.
   */
  lemma ReportCounts(tasks: seq<Task>, assignments: seq<Assignment>, members: seq<Member>,
                     categories: seq<Category>, month: int, year: int, now: Instant)
    ensures var r := ReportData(tasks, assignments, members, categories, month, year, now);
      r.completed + r.pending == r.total &&
      r.overdue <= r.pending &&
      r.completionRate == Rate(r.completed, r.total) &&
      (r.total == 0 ==> r.completionRate == 0) &&
      (r.total == 0 ==> r.completed == 0 && r.pending == 0 && r.overdue == 0) &&
      (r.completed == r.total && r.total > 0 ==> r.completionRate == 100)
  {
    var r := ReportData(tasks, assignments, members, categories, month, year, now);
    var mt := MonthTasks(tasks, year, month);
    assert r.monthTasks == mt && r.completed == |Filter(mt, IsCompleted)| && r.pending == |Filter(mt, IsOpen)|;
    assert r.overdue == |Filter(mt, IsOverdueAt(now))|;
    FilterSplit(mt, IsCompleted, IsOpen);
    FilterOfWeaker(mt, IsOverdueAt(now), IsOpen);
    if r.total > 0 {
      RateExtremes(r.total);
    }
  }

  /** The three priority buckets partition the month's tasks. */
  lemma PriorityPartition(tasks: seq<Task>, assignments: seq<Assignment>, members: seq<Member>,
                          categories: seq<Category>, month: int, year: int, now: Instant)
    ensures var r := ReportData(tasks, assignments, members, categories, month, year, now);
      var p := r.priorityStats;
      multiset(p.high) + multiset(p.medium) + multiset(p.low) == multiset(r.monthTasks) &&
      |p.high| + |p.medium| + |p.low| == r.total &&
      (forall t :: t in p.high ==> t.priority == High) &&
      (forall t :: t in p.medium ==> t.priority == Medium) &&
      (forall t :: t in p.low ==> t.priority == Low)
  {
    var mt := MonthTasks(tasks, year, month);
    FilterSplit3(mt, HasPriority(High), HasPriority(Medium), HasPriority(Low));
  }

  /** The member rows are the members' statistics with a positive total, reordered. */
  lemma MemberStatsRows(monthTasks: seq<Task>, assignments: seq<Assignment>, members: seq<Member>, s: MemberStat)
    ensures s in MemberStats(monthTasks, assignments, members) <==>
      s.total > 0 && exists i :: 0 <= i < |members| && s == MemberStatOf(monthTasks, assignments, members[i])
  {
    var all := Map(members, MemberStatBy(monthTasks, assignments));
    var pos := Filter(all, MemberActive);
    var ms := MemberStats(monthTasks, assignments, members);
    FilterMembers(all, MemberActive);
    assert s in ms <==> s in multiset(ms);
    assert s in pos <==> s in multiset(pos);
    if s in all {
      var i :| 0 <= i < |all| && all[i] == s;
      assert s == MemberStatOf(monthTasks, assignments, members[i]);
    }
    if exists i :: 0 <= i < |members| && s == MemberStatOf(monthTasks, assignments, members[i]) {
      var i :| 0 <= i < |members| && s == MemberStatOf(monthTasks, assignments, members[i]);
      assert all[i] == s;
    }
  }

  /** The member rows are ordered by rate, highest first. */
  lemma MemberStatsOrder(monthTasks: seq<Task>, assignments: seq<Assignment>, members: seq<Member>)
    ensures var ms := MemberStats(monthTasks, assignments, members);
      forall i, j :: 0 <= i < j < |ms| ==> ms[i].rate >= ms[j].rate
  {
    var ms := MemberStats(monthTasks, assignments, members);
    forall i, j | 0 <= i < j < |ms|
      ensures ms[i].rate >= ms[j].rate
    {
      assert KeyLe(ByRateDesc(ms[i]), ByRateDesc(ms[j]));
    }
  }

  /** Members of equal rate keep the order of the member list. */
  lemma MemberStatsStable(monthTasks: seq<Task>, assignments: seq<Assignment>, members: seq<Member>, k: Key)
    ensures WithKey(MemberStats(monthTasks, assignments, members), ByRateDesc, k) ==
      WithKey(Filter(Map(members, MemberStatBy(monthTasks, assignments)), MemberActive), ByRateDesc, k)
  {
    SortByStable(Filter(Map(members, MemberStatBy(monthTasks, assignments)), MemberActive), ByRateDesc, k);
  }

  /**
   * What the member rows hold: each is a listed member's task and
   * completion counts and rate, and a member has a row exactly when a task
   * of the month is assigned to them. (How often each row occurs is the
   * contract of `MemberStats`.)
   */
  lemma MemberStatsEntries(monthTasks: seq<Task>, assignments: seq<Assignment>, members: seq<Member>)
    ensures var ms := MemberStats(monthTasks, assignments, members);
      (forall s :: s in ms ==>
        s.member in members && s.total > 0 && s.completed <= s.total &&
        s == MemberStatOf(monthTasks, assignments, s.member) &&
        s.rate == Rate(s.completed, s.total) && 0 <= s.rate <= 100) &&
      (forall m :: m in members ==>
        (MemberStatOf(monthTasks, assignments, m) in ms <==>
          exists t :: t in monthTasks && Assignment(t.id, m.id) in assignments))
  {
    var ms := MemberStats(monthTasks, assignments, members);
    forall s | s in ms
      ensures s.member in members && s.total > 0 && s == MemberStatOf(monthTasks, assignments, s.member)
    {
      MemberStatsRows(monthTasks, assignments, members, s);
    }
    forall m | m in members
      ensures MemberStatOf(monthTasks, assignments, m) in ms <==>
        exists t :: t in monthTasks && Assignment(t.id, m.id) in assignments
    {
      MemberHasTasks(monthTasks, assignments, m);
      MemberStatsRows(monthTasks, assignments, members, MemberStatOf(monthTasks, assignments, m));
    }
  }

  /** A member's total is positive exactly when some task of the month is assigned to them. */
  lemma MemberHasTasks(monthTasks: seq<Task>, assignments: seq<Assignment>, m: Member)
    ensures MemberStatOf(monthTasks, assignments, m).total > 0 <==>
      exists t :: t in monthTasks && Assignment(t.id, m.id) in assignments
  {
    var mine := Filter(monthTasks, AssignedTo(assignments, m.id));
    FilterMembers(monthTasks, AssignedTo(assignments, m.id));
    if |mine| > 0 {
      assert mine[0] in mine;
    }
    if exists t :: t in monthTasks && Assignment(t.id, m.id) in assignments {
      var t :| t in monthTasks && Assignment(t.id, m.id) in assignments;
      assert t in mine;
    }
  }

  /** The category rows are the categories' statistics with a positive total, reordered. */
  lemma CategoryStatsRows(monthTasks: seq<Task>, categories: seq<Category>, s: CategoryStat)
    ensures s in CategoryStats(monthTasks, categories) <==>
      s.total > 0 && exists i :: 0 <= i < |categories| && s == CategoryStatOf(monthTasks, categories[i])
  {
    var all := Map(categories, CategoryStatBy(monthTasks));
    var pos := Filter(all, CategoryActive);
    var cs := CategoryStats(monthTasks, categories);
    FilterMembers(all, CategoryActive);
    assert s in cs <==> s in multiset(cs);
    assert s in pos <==> s in multiset(pos);
    if s in all {
      var i :| 0 <= i < |all| && all[i] == s;
      assert s == CategoryStatOf(monthTasks, categories[i]);
    }
    if exists i :: 0 <= i < |categories| && s == CategoryStatOf(monthTasks, categories[i]) {
      var i :| 0 <= i < |categories| && s == CategoryStatOf(monthTasks, categories[i]);
      assert all[i] == s;
    }
  }

  /** The category rows are ordered by task count, largest first. */
  lemma CategoryStatsOrder(monthTasks: seq<Task>, categories: seq<Category>)
    ensures var cs := CategoryStats(monthTasks, categories);
      forall i, j :: 0 <= i < j < |cs| ==> cs[i].total >= cs[j].total
  {
    var cs := CategoryStats(monthTasks, categories);
    forall i, j | 0 <= i < j < |cs|
      ensures cs[i].total >= cs[j].total
    {
      assert KeyLe(ByTotalDesc(cs[i]), ByTotalDesc(cs[j]));
    }
  }

  /** Categories of equal task count keep the order of the category list. */
  lemma CategoryStatsStable(monthTasks: seq<Task>, categories: seq<Category>, k: Key)
    ensures WithKey(CategoryStats(monthTasks, categories), ByTotalDesc, k) ==
      WithKey(Filter(Map(categories, CategoryStatBy(monthTasks)), CategoryActive), ByTotalDesc, k)
  {
    SortByStable(Filter(Map(categories, CategoryStatBy(monthTasks)), CategoryActive), ByTotalDesc, k);
  }

  /**
   * What the category rows hold: each is a listed category's task and
   * completion counts and rate, and a category has a row exactly when a
   * task of the month has it. (How often each row occurs is the contract
   * of `CategoryStats`.)
   */
  lemma CategoryStatsEntries(monthTasks: seq<Task>, categories: seq<Category>)
    ensures var cs := CategoryStats(monthTasks, categories);
      (forall s :: s in cs ==>
        s.category in categories && s.total > 0 && s.completed <= s.total &&
        s == CategoryStatOf(monthTasks, s.category) &&
        s.rate == Rate(s.completed, s.total) && 0 <= s.rate <= 100) &&
      (forall c :: c in categories ==>
        (CategoryStatOf(monthTasks, c) in cs <==>
          exists t :: t in monthTasks && t.categoryId == Some(c.id)))
  {
    var cs := CategoryStats(monthTasks, categories);
    forall s | s in cs
      ensures s.category in categories && s.total > 0 && s == CategoryStatOf(monthTasks, s.category)
    {
      CategoryStatsRows(monthTasks, categories, s);
    }
    forall c | c in categories
      ensures CategoryStatOf(monthTasks, c) in cs <==>
        exists t :: t in monthTasks && t.categoryId == Some(c.id)
    {
      CategoryHasTasks(monthTasks, c);
      CategoryStatsRows(monthTasks, categories, CategoryStatOf(monthTasks, c));
    }
  }

  lemma CategoryHasTasks(monthTasks: seq<Task>, c: Category)
    ensures CategoryStatOf(monthTasks, c).total > 0 <==>
      exists t :: t in monthTasks && t.categoryId == Some(c.id)
  {
    var mine := Filter(monthTasks, InCategory(c.id));
    FilterMembers(monthTasks, InCategory(c.id));
    if |mine| > 0 {
      assert mine[0] in mine;
    }
  }
}
