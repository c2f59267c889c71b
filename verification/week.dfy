/** The week being filled (main.py lines 11-12 and 33-48): seven named days,
    each with the entries placed on it and a running total of minutes, the
    capacity test and the placement of one task. */
module WeekState {
  import opened Tasks

  /** Length of a working day, in minutes. */
  const WorkdayMinutes: nat := 720

  /** Minutes kept free on top of a task for it to be accepted on a day. */
  const BreathingRoom: nat := 30

  /** The highest total a day can reach: a task is only accepted while its
      day's new total still leaves the breathing room free. */
  const MaxLoad: nat := WorkdayMinutes - BreathingRoom

  datatype Day = Monday | Tuesday | Wednesday | Thursday | Friday | Saturday | Sunday

  /** The days in the week's key order, which is the order they were inserted. */
  const DayOrder: seq<Day> := [Monday, Tuesday, Wednesday, Thursday, Friday, Saturday, Sunday]

  /** The position of a day in `DayOrder`. */
  function Index(d: Day): (i: nat)
    ensures i < |DayOrder| && DayOrder[i] == d
  {
    match d
    case Monday => 0
    case Tuesday => 1
    case Wednesday => 2
    case Thursday => 3
    case Friday => 4
    case Saturday => 5
    case Sunday => 6
  }

  /** The record kept for a placed task: only its name and duration. */
  datatype Entry = Entry(name: string, duration: nat)

  function EntryOf(t: Task): Entry {
    Entry(t.name, t.duration)
  }

  function EntriesOf(ts: seq<Task>): (es: seq<Entry>)
    ensures |es| == |ts|
    ensures forall i :: 0 <= i < |ts| ==> es[i] == EntryOf(ts[i])
  {
    if |ts| == 0 then [] else [EntryOf(ts[0])] + EntriesOf(ts[1..])
  }

  /** One day of the week: its entries in placement order and its total. */
  datatype DayState = DayState(tasks: seq<Entry>, totalMinutes: nat)

  const EmptyDay := DayState([], 0)

  /** The week: every day has a state. */
  type Week = w: map<Day, DayState> | forall d: Day :: d in w
    witness map d: Day | d.Monday? || !d.Monday? :: EmptyDay

  /** The week before any task is placed: every day empty, with total 0. */
  const EmptyWeek: Week := map d: Day | d.Monday? || !d.Monday? :: EmptyDay

  function Load(w: Week, d: Day): nat {
    w[d].totalMinutes
  }

  function SumDurations(es: seq<Entry>): nat {
    if |es| == 0 then 0 else es[0].duration + SumDurations(es[1..])
  }

  /** Whether day `d` can take a task of `duration` minutes (main.py:43-44). */
  predicate CanAccommodate(w: Week, d: Day, duration: nat) {
    Load(w, d) + duration + BreathingRoom <= WorkdayMinutes
  }

  /** Appends the task's entry to day `d` and adds its duration, and nothing
      else, to that day's total (main.py:46-48). */
  function PlaceTask(w: Week, t: Task, d: Day): (w': Week)
    ensures w'[d].tasks == w[d].tasks + [EntryOf(t)]
    ensures Load(w', d) == Load(w, d) + t.duration
    ensures forall e :: e != d ==> w'[e] == w[e]
  {
    w[d := DayState(w[d].tasks + [EntryOf(t)], w[d].totalMinutes + t.duration)]
  }

  /** Every day's total is the sum of the durations of its entries. */
  predicate Consistent(w: Week) {
    forall d: Day :: Load(w, d) == SumDurations(w[d].tasks)
  }

  /** No day's total exceeds `MaxLoad`. */
  predicate WithinCapacity(w: Week) {
    forall d: Day :: Load(w, d) <= MaxLoad
  }

  /** The sum of the totals of `days`. */
  function LoadOf(w: Week, days: seq<Day>): nat {
    if |days| == 0 then 0 else Load(w, days[0]) + LoadOf(w, days[1..])
  }

  /** The entries of `days`, day after day. */
  function EntriesOn(w: Week, days: seq<Day>): seq<Entry> {
    if |days| == 0 then [] else w[days[0]].tasks + EntriesOn(w, days[1..])
  }

  /** The minutes placed over the whole week. */
  function TotalLoad(w: Week): nat {
    LoadOf(w, DayOrder)
  }

  /** Every entry of the week, day by day in key order: what the schedule lists. */
  function AllEntries(w: Week): seq<Entry> {
    EntriesOn(w, DayOrder)
  }

  predicate NoDuplicates(days: seq<Day>) {
    forall i, j :: 0 <= i < j < |days| ==> days[i] != days[j]
  }

  lemma {:induction false} SumDurationsAppend(a: seq<Entry>, b: seq<Entry>)
    ensures SumDurations(a + b) == SumDurations(a) + SumDurations(b)
  {
    if |a| == 0 {
      assert a + b == b;
    } else {
      assert (a + b)[1..] == a[1..] + b;
      SumDurationsAppend(a[1..], b);
    }
  }

  /** The week starts empty, consistent and within capacity. */
  lemma EmptyWeekInvariants()
    ensures Consistent(EmptyWeek) && WithinCapacity(EmptyWeek)
    ensures TotalLoad(EmptyWeek) == 0 && AllEntries(EmptyWeek) == []
  {
    EmptyDays(DayOrder);
  }

  lemma {:induction false} EmptyDays(days: seq<Day>)
    ensures LoadOf(EmptyWeek, days) == 0 && EntriesOn(EmptyWeek, days) == []
  {
    if |days| > 0 {
      EmptyDays(days[1..]);
    }
  }

  /** The capacity test only looks at the load: a day no more loaded than one
      that can take a task can take it too. */
  lemma CanAccommodateMonotone(w: Week, d: Day, e: Day, duration: nat)
    requires Load(w, d) <= Load(w, e)
    ensures CanAccommodate(w, e, duration) ==> CanAccommodate(w, d, duration)
  {
  }

  /** A placement keeps every total equal to the sum of its entries' durations:
      it charges the duration and not the breathing room. */
  lemma PlacePreservesConsistent(w: Week, t: Task, d: Day)
    requires Consistent(w)
    ensures Consistent(PlaceTask(w, t, d))
  {
    var w' := PlaceTask(w, t, d);
    SumDurationsAppend(w[d].tasks, [EntryOf(t)]);
    assert SumDurations([EntryOf(t)]) == t.duration;
    forall e: Day ensures Load(w', e) == SumDurations(w'[e].tasks) {
      if e != d {
        assert w'[e] == w[e];
      }
    }
  }

  /** A placement the capacity test admitted leaves the day at most at `MaxLoad`. */
  lemma PlacePreservesCapacity(w: Week, t: Task, d: Day)
    requires WithinCapacity(w)
    requires CanAccommodate(w, d, t.duration)
    ensures WithinCapacity(PlaceTask(w, t, d))
  {
    var w' := PlaceTask(w, t, d);
    forall e: Day ensures Load(w', e) <= MaxLoad {
      if e != d {
        assert Load(w', e) == Load(w, e);
      }
    }
  }

  lemma {:induction false} PlaceLoadOf(w: Week, t: Task, d: Day, days: seq<Day>)
    requires NoDuplicates(days)
    ensures LoadOf(PlaceTask(w, t, d), days) == LoadOf(w, days) + (if d in days then t.duration else 0)
  {
    if |days| > 0 {
      PlaceLoadOf(w, t, d, days[1..]);
      assert d in days <==> d == days[0] || d in days[1..];
      if d == days[0] {
        assert d !in days[1..];
      }
    }
  }

  lemma {:induction false} PlaceEntriesOn(w: Week, t: Task, d: Day, days: seq<Day>)
    requires NoDuplicates(days)
    ensures multiset(EntriesOn(PlaceTask(w, t, d), days))
         == multiset(EntriesOn(w, days)) + (if d in days then multiset{EntryOf(t)} else multiset{})
  {
    if |days| > 0 {
      var w' := PlaceTask(w, t, d);
      var rest := days[1..];
      PlaceEntriesOn(w, t, d, rest);
      var before := multiset(EntriesOn(w, rest));
      var after := multiset(EntriesOn(w', rest));
      assert multiset(EntriesOn(w', days)) == multiset(w'[days[0]].tasks) + after;
      assert multiset(EntriesOn(w, days)) == multiset(w[days[0]].tasks) + before;
      var added := if d in days then multiset{EntryOf(t)} else multiset{};
      if d == days[0] {
        assert d !in rest;
        assert after == before;
        assert multiset(w'[d].tasks) == multiset(w[d].tasks) + added;
        UnionShift(multiset(w[d].tasks), before, added);
      } else {
        assert d in days <==> d in rest;
        assert w'[days[0]] == w[days[0]];
        assert after == before + added;
        UnionShift(multiset(w[days[0]].tasks), before, added);
      }
    }
  }

  lemma UnionShift<T>(a: multiset<T>, b: multiset<T>, x: multiset<T>)
    ensures (a + x) + b == (a + b) + x && a + (b + x) == (a + b) + x
  {
  }

  /** A placement adds the task's duration to the week's total, and the task's
      entry, once, to the week's entries. */
  lemma PlaceAddsOnce(w: Week, t: Task, d: Day)
    ensures TotalLoad(PlaceTask(w, t, d)) == TotalLoad(w) + t.duration
    ensures multiset(AllEntries(PlaceTask(w, t, d))) == multiset(AllEntries(w)) + multiset{EntryOf(t)}
  {
    assert NoDuplicates(DayOrder);
    assert d in DayOrder;
    PlaceLoadOf(w, t, d, DayOrder);
    PlaceEntriesOn(w, t, d, DayOrder);
  }
}
