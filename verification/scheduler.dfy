/** The greedy weekly planner (main.py lines 50-59): the tasks are taken in
    key order; each goes to the least loaded day when that day can take it,
    and to no day at all otherwise. */
module Scheduler {
  import opened Options
  import opened Tasks
  import opened WeekState
  import opened DayChoice

  /** Whether task `t` gets a day of week `w`. */
  ghost predicate Fits(w: Week, t: Task) {
    CanAccommodate(w, LeastLoaded(w), t.duration)
  }

  /** Places one task (one iteration of the loop at main.py:52-59). */
  ghost function Step(w: Week, t: Task): Week {
    if Fits(w, t) then PlaceTask(w, t, LeastLoaded(w)) else w
  }

  /** The result of a run: the final week, and the tasks placed and dropped,
      each in processing order. */
  datatype Outcome = Outcome(week: Week, placed: seq<Task>, dropped: seq<Task>)

  /** Processes `ts` in order from week `w` (the loop at main.py:52-59). */
  ghost function Run(w: Week, ts: seq<Task>): Outcome
    decreases |ts|
  {
    if |ts| == 0 then Outcome(w, [], [])
    else
      var rest := Run(Step(w, ts[0]), ts[1..]);
      if Fits(w, ts[0]) then rest.(placed := [ts[0]] + rest.placed)
      else rest.(dropped := [ts[0]] + rest.dropped)
  }

  /** The whole planner: sort the tasks, then fill the empty week. */
  ghost function Schedule(tasks: seq<Task>): Outcome {
    Run(EmptyWeek, SortTasks(tasks))
  }

  /** Every step keeps each day's total equal to the sum of its entries and at
      most `MaxLoad`. */
  lemma {:induction false} RunInvariants(w: Week, ts: seq<Task>)
    requires Consistent(w) && WithinCapacity(w)
    ensures Consistent(Run(w, ts).week) && WithinCapacity(Run(w, ts).week)
    decreases |ts|
  {
    if |ts| > 0 {
      if Fits(w, ts[0]) {
        PlacePreservesConsistent(w, ts[0], LeastLoaded(w));
        PlacePreservesCapacity(w, ts[0], LeastLoaded(w));
      }
      RunInvariants(Step(w, ts[0]), ts[1..]);
    }
  }

  /** One step adds the task's duration to the week's total and its entry to
      the week's entries when it places the task, and changes nothing otherwise. */
  lemma StepAddsAtMostOnce(w: Week, t: Task)
    ensures TotalLoad(Step(w, t)) == TotalLoad(w) + (if Fits(w, t) then t.duration else 0)
    ensures multiset(AllEntries(Step(w, t)))
         == multiset(AllEntries(w)) + (if Fits(w, t) then multiset{EntryOf(t)} else multiset{})
  {
    if Fits(w, t) {
      PlaceAddsOnce(w, t, LeastLoaded(w));
    }
  }

  /** Nothing is lost or duplicated: the placed and the dropped tasks together
      are the input. */
  lemma {:induction false} RunPartitions(w: Week, ts: seq<Task>)
    ensures multiset(Run(w, ts).placed) + multiset(Run(w, ts).dropped) == multiset(ts)
    decreases |ts|
  {
    if |ts| > 0 {
      var t := ts[0];
      var rest := Run(Step(w, t), ts[1..]);
      RunPartitions(Step(w, t), ts[1..]);
      assert ts == [t] + ts[1..];
    }
  }

  /** The week gains exactly the entries of the placed tasks. */
  lemma {:induction false} RunEntries(w: Week, ts: seq<Task>)
    ensures multiset(AllEntries(Run(w, ts).week))
         == multiset(AllEntries(w)) + multiset(EntriesOf(Run(w, ts).placed))
    decreases |ts|
  {
    if |ts| > 0 {
      var t := ts[0];
      var rest := Run(Step(w, t), ts[1..]);
      RunEntries(Step(w, t), ts[1..]);
      StepAddsAtMostOnce(w, t);
      if Fits(w, t) {
        assert EntriesOf([t] + rest.placed) == [EntryOf(t)] + EntriesOf(rest.placed);
      }
    }
  }

  /** The week's total grows by exactly the durations of the placed tasks. */
  lemma {:induction false} RunTotal(w: Week, ts: seq<Task>)
    ensures TotalLoad(Run(w, ts).week) == TotalLoad(w) + SumDurations(EntriesOf(Run(w, ts).placed))
    decreases |ts|
  {
    if |ts| > 0 {
      var t := ts[0];
      var rest := Run(Step(w, t), ts[1..]);
      RunTotal(Step(w, t), ts[1..]);
      StepAddsAtMostOnce(w, t);
      if Fits(w, t) {
        assert EntriesOf([t] + rest.placed) == [EntryOf(t)] + EntriesOf(rest.placed);
      }
    }
  }

  /** No day's total ever goes down. */
  lemma {:induction false} RunLoadsGrow(w: Week, ts: seq<Task>)
    ensures forall e: Day :: Load(w, e) <= Load(Run(w, ts).week, e)
    decreases |ts|
  {
    if |ts| > 0 {
      RunLoadsGrow(Step(w, ts[0]), ts[1..]);
      forall e: Day ensures Load(w, e) <= Load(Step(w, ts[0]), e) {
        if Fits(w, ts[0]) && e != LeastLoaded(w) {
          assert Load(Step(w, ts[0]), e) == Load(w, e);
        }
      }
    }
  }

  /** A dropped task could not have gone on any day, not even in the final
      week: it was dropped because every day was already too full for it, and
      the days only fill up. */
  lemma {:induction false} DroppedNeverFit(w: Week, ts: seq<Task>)
    ensures forall t, e: Day :: t in Run(w, ts).dropped ==> !CanAccommodate(Run(w, ts).week, e, t.duration)
    decreases |ts|
  {
    if |ts| > 0 {
      var t0 := ts[0];
      var rest := Run(Step(w, t0), ts[1..]);
      DroppedNeverFit(Step(w, t0), ts[1..]);
      if !Fits(w, t0) {
        DroppedIff(w, t0.duration);
        RunLoadsGrow(w, ts[1..]);
        forall t, e: Day | t in Run(w, ts).dropped ensures !CanAccommodate(rest.week, e, t.duration) {
          if t != t0 {
            assert t in rest.dropped;
          } else {
            assert !CanAccommodate(w, e, t.duration);
          }
        }
      }
    }
  }

  /** What the planner guarantees of the week it builds: every day's total is
      the sum of its entries and at most `MaxLoad`, the entries are exactly
      those of the placed tasks, every input task is either placed once or
      dropped, and a dropped task fits on no day of the final week. */
  lemma ScheduleGuarantees(tasks: seq<Task>)
    ensures var o := Schedule(tasks);
      && Consistent(o.week) && WithinCapacity(o.week)
      && multiset(o.placed) + multiset(o.dropped) == multiset(tasks)
      && multiset(AllEntries(o.week)) == multiset(EntriesOf(o.placed))
      && TotalLoad(o.week) == SumDurations(EntriesOf(o.placed))
      && forall t, e: Day :: t in o.dropped ==> !CanAccommodate(o.week, e, t.duration)
  {
    EmptyWeekInvariants();
    RunInvariants(EmptyWeek, SortTasks(tasks));
    RunPartitions(EmptyWeek, SortTasks(tasks));
    RunEntries(EmptyWeek, SortTasks(tasks));
    RunTotal(EmptyWeek, SortTasks(tasks));
    DroppedNeverFit(EmptyWeek, SortTasks(tasks));
  }

  lemma RunFirstStep(w: Week, ts: seq<Task>)
    requires |ts| > 0
    ensures Run(w, ts).week == Run(Step(w, ts[0]), ts[1..]).week
  {
  }

  /** The inner loop at main.py:55-59: walks `days` and stops at the first
      that can take `duration` minutes; `j == |days|` when none can. */
  method FindFirstFit(week: Week, days: seq<Day>, duration: nat) returns (j: nat)
    ensures j <= |days|
    ensures j < |days| <==> FirstFit(week, days, duration).Some?
    ensures j < |days| ==> FirstFit(week, days, duration) == Some(days[j])
  {
    j := 0;
    while j < |days| && !CanAccommodate(week, days[j], duration)
      invariant j <= |days|
      invariant FirstFit(week, days[j..], duration) == FirstFit(week, days, duration)
    {
      assert days[j..][1..] == days[j + 1..];
      j := j + 1;
    }
    if j < |days| {
      assert days[j..][0] == days[j];
    } else {
      assert days[j..] == [];
    }
  }

  /** One iteration of the loop at main.py:53-59: order the days by load, walk
      them, and place the task on the first that can take it. */
  method PlaceGreedily(week: Week, task: Task) returns (next: Week)
    ensures next == Step(week, task)
  {
    GreedyChoice(week, task.duration);
    var sortedDays := DaysByLoad(week);
    var j := FindFirstFit(week, sortedDays, task.duration);
    if j < |sortedDays| {
      assert sortedDays[j] == LeastLoaded(week) && Fits(week, task);
      next := PlaceTask(week, task, sortedDays[j]);
    } else {
      assert !Fits(week, task);
      next := week;
    }
  }

  /** The planner as the source writes it: sort the tasks, then place each in
      turn on the week (main.py:50-59). */
  method PlanWeek(tasks: seq<Task>) returns (week: Week)
    ensures week == Schedule(tasks).week
    ensures Consistent(week) && WithinCapacity(week)
  {
    var order := SortTasks(tasks);
    week := EmptyWeek;
    var i := 0;
    while i < |order|
      invariant 0 <= i <= |order|
      invariant Run(week, order[i..]).week == Schedule(tasks).week
    {
      RunFirstStep(week, order[i..]);
      assert order[i..][0] == order[i] && order[i..][1..] == order[i + 1..];
      week := PlaceGreedily(week, order[i]);
      i := i + 1;
    }
    ScheduleGuarantees(tasks);
  }
}
