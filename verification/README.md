# Weekly task packer

A Dafny model of the planner in `main.py` of todoist_task_organiser. The
planner takes a list of tasks and packs them into a week of seven days,
Monday to Sunday. Each task has a name, a duration in minutes and an
optional due date.

- The tasks are sorted by due date, with tasks that have no due date last. Ties are broken by duration.
- Each task in that order goes to the day with the smallest running total, provided the day can take it. A day can take a task when its total plus the task's duration plus 30 minutes of breathing room is at most 720 minutes. Days with equal totals are tried in week order.
- Placing a task appends `{name, duration}` to the day's list. It adds the duration, and not the breathing room, to the day's total.
- A task that fits on no day is silently dropped.

Modules:

- `Options`: the optional value used for due dates.
- `StableSort`: a generic stable insertion sort. It models Python's `sort`/`sorted` with a key, both for the tasks and for the days.
- `Tasks`: the task record, the sort key and the processing order.
- `WeekState`: the days, their entries and totals, the capacity test and the placement of one task.
- `DayChoice`: the choice of a day, as the source writes it. That is a stable sort of the days by total, followed by the first day that fits. This module shows that this choice is always the least loaded day or no day.
- `Scheduler`: the whole run. It has a specification (`Run`, `Schedule`) and the loops as the source writes them (`PlanWeek`, `PlaceGreedily`, `FindFirstFit`).

Descriptions of this repository also mention time slots inside a day, a fallback day for tasks that do not fit, and days created on demand. `main.py` has none of these: its week is fixed, and a task that fits nowhere is dropped. The model follows `main.py`.

## Model

| member | source | states |
|---|---|---|
| `StableSort.SortPermutes` | main.py:50 | sorting neither loses nor duplicates an element: the result is a permutation of the input |
| `StableSort.SortSorted` | main.py:50 | under a total preorder, the result is in nondecreasing key order |
| `StableSort.SortStable` | main.py:54 | elements with equal keys keep their input order (Python's sort is stable) |
| `StableSort.SortUnique` | main.py:50 | any rearrangement that is sorted and keeps equal keys in input order is the sort's result, so the model agrees with any stable sort, Python's included |
| `Tasks.SortTasks` | main.py:50 | the processing order is a permutation of the tasks, sorted by the key (due date, missing last; then duration), with equal keys in input order |
| `Tasks.ProcessingOrder` | main.py:50 | in the processing order, undated tasks come after dated ones, dated tasks come by due date, and tasks with the same due date come shortest first |
| `Tasks.SortTasksIsTheStableSort` | main.py:50 | every stable sort of the tasks by the key yields the processing order |
| `WeekState.EmptyWeekInvariants` | main.py:33-41 | the initial week has every total 0 and no entries, so it is consistent and within capacity |
| `WeekState.CanAccommodateMonotone` | main.py:43-44 | the capacity test depends only on the day's total: a day no more loaded than one that accepts a task accepts it too |
| `WeekState.PlaceTask` | main.py:46-48 | placing a task appends exactly its `{name, duration}` entry to the chosen day, raises that day's total by exactly the duration, and leaves every other day unchanged |
| `WeekState.PlacePreservesConsistent` | main.py:46-48 | after a placement, every day's total is still the sum of its entries' durations, because the breathing room is never charged |
| `WeekState.PlacePreservesCapacity` | main.py:43-48 | a placement the capacity test admitted leaves every total at most 720 - 30 = 690 |
| `WeekState.PlaceAddsOnce` | main.py:46-48 | a placement raises the week's total by the duration and adds the task's entry to the week's entries exactly once |
| `DayChoice.DaysByLoadOrdered` | main.py:54 | the sorted days contain every day, in nondecreasing order of total, with days of equal total in week order |
| `DayChoice.FirstFitSpec` | main.py:55-59 | the inner loop finds no day exactly when no listed day can take the task; otherwise it finds one that can, and none before it can |
| `DayChoice.FirstFitNoneIff` | main.py:55-59 | over a list holding every day, the inner loop finds nothing exactly when no day of the week can take the task |
| `DayChoice.DaysByLoadHead` | main.py:54 | the first of the sorted days has the smallest total, and is the earliest in week order among the days with that total |
| `DayChoice.LeastLoaded` | main.py:54 | the least loaded day exists and is unique: smallest total, earliest in week order among ties |
| `DayChoice.GreedyChoice` | main.py:54-59 | sorting the days and taking the first that fits picks the least loaded day if that day can take the task, and no day otherwise |
| `DayChoice.ChooseIsLeastLoaded` | main.py:54-57 | a task goes to day `d` if and only if `d` is the least loaded day and can take the task |
| `DayChoice.DroppedIff` | main.py:55-59 | a task is dropped if and only if the least loaded day cannot take it, which holds if and only if no day of the week can take it |
| `Scheduler.StepAddsAtMostOnce` | main.py:55-58 | one task changes the week's total by its duration and its entries by its entry when it is placed, and changes nothing when it is dropped |
| `Scheduler.RunInvariants` | main.py:52-59 | the whole loop keeps every day's total equal to the sum of its entries and at most 690 |
| `Scheduler.RunPartitions` | main.py:52-59 | every processed task is either placed or dropped, once: placed and dropped tasks together are the input multiset |
| `Scheduler.RunEntries` | main.py:52-59 | the entries the week gains are exactly those of the placed tasks |
| `Scheduler.RunTotal` | main.py:52-59 | the week's total grows by exactly the sum of the placed tasks' durations |
| `Scheduler.RunLoadsGrow` | main.py:52-59 | no day's total ever decreases during the loop |
| `Scheduler.DroppedNeverFit` | main.py:52-59 | a dropped task fits on no day of the final week either: every day was already too full for it, and days only fill up |
| `Scheduler.ScheduleGuarantees` | main.py:50-59 | the planned week is consistent and within capacity, its entries and total are exactly those of the placed tasks, the placed and dropped tasks are the input, and no dropped task fits anywhere |
| `Scheduler.FindFirstFit` | main.py:55-59 | the inner loop stops at the first day that fits, which is the day the first-fit specification names, or runs off the end when there is none |
| `Scheduler.PlaceGreedily` | main.py:53-59 | one iteration of the outer loop (sort the days by total, then first fit) computes exactly the specified step: the task goes on the least loaded day if that day can take it |
| `Scheduler.PlanWeek` | main.py:50-59 | the program's two loops build exactly the week the specification describes, and that week is consistent and within capacity |

## Left out

- Reading the API key and fetching tasks from Todoist (main.py:1-9, 20-31) is input/output. The task list is a parameter of `PlanWeek` and `Schedule` instead. That covers three details of the fetch:
  - the filter on one project and on today's date;
  - the fixed duration of 60 minutes;
  - the printing of a failed fetch.
- Printing the schedule (main.py:61-66) is output. `WeekState.AllEntries` lists the entries it would print, day by day in week order.
- Due dates are abstract ordered instants (`Tasks.Instant`), with a missing due date standing for `datetime.max`. In `main.py` a due date is the fetched date string, and the fetch keeps only tasks due today. So every task has a due date, and the string is never compared with `datetime.max`. A list mixing dated and undated tasks would make Python's comparison fail. The model does not reproduce that error: it orders such a list with the missing dates last, as the key intends.
- Durations are natural numbers. Python's integers are unbounded, so the model needs no overflow handling.
- The `placed` flag (main.py:53, 58) is assigned but never read, so it is not modelled. The `Outcome` of `Scheduler.Run` records placed and dropped tasks in its place.
- The global mutable `week` dictionary is an immutable `Week` value, passed from step to step.
