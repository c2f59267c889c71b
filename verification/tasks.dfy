/** The tasks the planner receives and the order it processes them in
    (`Task` and the sort at main.py line 50). */
module Tasks {
  import opened Options
  import opened StableSort

  /** A due date, as an abstract point in time: a larger value is later. */
  type Instant = int

  /** A task: its display name, its length in minutes and an optional due date. */
  datatype Task = Task(name: string, duration: nat, due: Option<Instant>)

  /** The first half of the sort key: an absent due date stands for the latest
      possible date, so it is above every present one and equal to another
      absent one. */
  predicate DueLe(a: Option<Instant>, b: Option<Instant>) {
    match b
    case None => true
    case Some(y) => a.Some? && a.value <= y
  }

  /** The sort key `(due date or latest, duration)` compared lexicographically,
      as Python compares tuples. */
  predicate TaskLe(s: Task, t: Task) {
    || (s.due != t.due && DueLe(s.due, t.due))
    || (s.due == t.due && s.duration <= t.duration)
  }

  lemma TaskLeIsTotalPreorder()
    ensures TotalPreorder(TaskLe)
  {
  }

  /** The processing order: the tasks stably sorted by their key. */
  function SortTasks(tasks: seq<Task>): (order: seq<Task>)
    ensures multiset(order) == multiset(tasks)
    ensures Sorted(TaskLe, order)
    ensures forall z :: Peers(TaskLe, z, order) == Peers(TaskLe, z, tasks)
  {
    TaskLeIsTotalPreorder();
    SortPermutes(TaskLe, tasks);
    SortSorted(TaskLe, tasks);
    SortStableAll(TaskLe, tasks);
    Sort(TaskLe, tasks)
  }

  /** The processing order, spelled out: dated tasks come first, by due date;
      undated tasks come last; tasks with the same due date (or none) come
      shortest first. */
  lemma ProcessingOrder(tasks: seq<Task>, i: int, j: int)
    requires 0 <= i < j < |tasks|
    ensures var order := SortTasks(tasks);
      && (order[i].due.None? ==> order[j].due.None?)
      && (order[i].due.Some? && order[j].due.Some? ==> order[i].due.value <= order[j].due.value)
      && (order[i].due == order[j].due ==> order[i].duration <= order[j].duration)
  {
    var order := SortTasks(tasks);
    assert TaskLe(order[i], order[j]);
  }

  /** Any rearrangement of the tasks that is ordered by the key and keeps tasks
      with equal keys in input order is the processing order: the model agrees
      with every stable sort, Python's included. */
  lemma SortTasksIsTheStableSort(tasks: seq<Task>, r: seq<Task>)
    requires Sorted(TaskLe, r)
    requires forall z :: Peers(TaskLe, z, r) == Peers(TaskLe, z, tasks)
    ensures r == SortTasks(tasks)
  {
    TaskLeIsTotalPreorder();
    SortUnique(TaskLe, r, tasks);
  }
}
