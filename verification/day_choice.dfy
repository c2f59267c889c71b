/** How the planner picks a day for a task (main.py lines 53-59): the days
    ordered by their current total, ties kept in key order, and the first of
    them that can take the task. Because the capacity test only looks at a
    day's total, that choice is the least loaded day or nothing; `LeastLoaded`
    computes that day by a single scan. */
module DayChoice {
  import opened Options
  import opened StableSort
  import opened Tasks
  import opened WeekState

  /** Compares two days by their current total (the key at main.py:54). */
  function LoadLe(w: Week): (Day, Day) -> bool {
    (a: Day, b: Day) => Load(w, a) <= Load(w, b)
  }

  lemma LoadLeIsTotalPreorder(w: Week)
    ensures TotalPreorder(LoadLe(w))
  {
  }

  /** The days ordered by their current total, ties in key order: a stable sort
      of `DayOrder` by load (main.py:54). */
  function DaysByLoad(w: Week): (days: seq<Day>)
    ensures |days| == |DayOrder|
  {
    Sort(LoadLe(w), DayOrder)
  }

  /** `DaysByLoad` holds every day, by nondecreasing load, and days with equal
      loads keep their key order. */
  lemma DaysByLoadOrdered(w: Week)
    ensures forall e: Day :: e in DaysByLoad(w)
    ensures forall i, j :: 0 <= i < j < |DaysByLoad(w)| ==> Load(w, DaysByLoad(w)[i]) <= Load(w, DaysByLoad(w)[j])
    ensures forall z :: Peers(LoadLe(w), z, DaysByLoad(w)) == Peers(LoadLe(w), z, DayOrder)
  {
    DaysByLoadPermutes(w);
    DaysByLoadSorted(w);
    DaysByLoadStable(w);
  }

  lemma DaysByLoadPermutes(w: Week)
    ensures forall e: Day :: e in DaysByLoad(w)
  {
    SortPermutes(LoadLe(w), DayOrder);
    HoldsAllDays(DaysByLoad(w));
  }

  lemma DaysByLoadSorted(w: Week)
    ensures forall i, j :: 0 <= i < j < |DaysByLoad(w)| ==> Load(w, DaysByLoad(w)[i]) <= Load(w, DaysByLoad(w)[j])
  {
    LoadLeIsTotalPreorder(w);
    SortSorted(LoadLe(w), DayOrder);
    SortedByLoad(w, DaysByLoad(w));
  }

  lemma DaysByLoadStable(w: Week)
    ensures forall z :: Peers(LoadLe(w), z, DaysByLoad(w)) == Peers(LoadLe(w), z, DayOrder)
  {
    LoadLeIsTotalPreorder(w);
    SortStableAll(LoadLe(w), DayOrder);
  }

  lemma HoldsAllDays(days: seq<Day>)
    requires multiset(days) == multiset(DayOrder)
    ensures forall e: Day :: e in days
  {
    forall e: Day ensures e in days {
      assert DayOrder[Index(e)] == e;
      assert e in multiset(DayOrder);
    }
  }

  lemma SortedByLoad(w: Week, days: seq<Day>)
    requires Sorted(LoadLe(w), days)
    ensures forall i, j :: 0 <= i < j < |days| ==> Load(w, days[i]) <= Load(w, days[j])
  {
    forall i, j | 0 <= i < j < |days| ensures Load(w, days[i]) <= Load(w, days[j]) {
      assert LoadLe(w)(days[i], days[j]);
    }
  }

  /** The first day of `days` that can take `duration` minutes, if any
      (the inner loop at main.py:55-59). */
  function FirstFit(w: Week, days: seq<Day>, duration: nat): Option<Day> {
    if |days| == 0 then None
    else if CanAccommodate(w, days[0], duration) then Some(days[0])
    else FirstFit(w, days[1..], duration)
  }

  /** `FirstFit` finds nothing exactly when no day of `days` can take the task,
      and otherwise finds a day of `days` that can, with none before it that can. */
  lemma {:induction false} FirstFitSpec(w: Week, days: seq<Day>, duration: nat)
    ensures FirstFit(w, days, duration).None? <==> forall i :: 0 <= i < |days| ==> !CanAccommodate(w, days[i], duration)
    ensures FirstFit(w, days, duration).Some? ==>
      exists i :: 0 <= i < |days| && days[i] == FirstFit(w, days, duration).value
        && CanAccommodate(w, days[i], duration)
        && forall k :: 0 <= k < i ==> !CanAccommodate(w, days[k], duration)
  {
    if |days| > 0 && !CanAccommodate(w, days[0], duration) {
      FirstFitSpec(w, days[1..], duration);
      var r := FirstFit(w, days[1..], duration);
      if r.Some? {
        var i :| 0 <= i < |days| - 1 && days[1..][i] == r.value
                 && CanAccommodate(w, days[1..][i], duration)
                 && forall k :: 0 <= k < i ==> !CanAccommodate(w, days[1..][k], duration);
        assert days[i + 1] == r.value;
        assert forall k :: 0 <= k < i + 1 ==> !CanAccommodate(w, days[k], duration) by {
          forall k | 0 <= k < i + 1 ensures !CanAccommodate(w, days[k], duration) {
            if k > 0 {
              assert days[k] == days[1..][k - 1];
            }
          }
        }
      } else {
        forall i | 0 <= i < |days| ensures !CanAccommodate(w, days[i], duration) {
          if i > 0 {
            assert days[i] == days[1..][i - 1];
          }
        }
      }
    }
  }

  /** `d` has the least total of the week, and is the first such day in key order. */
  ghost predicate IsLeastLoaded(w: Week, d: Day) {
    forall e: Day :: Load(w, d) <= Load(w, e) && (Load(w, e) == Load(w, d) ==> Index(d) <= Index(e))
  }

  /** At most one day is the least loaded. */
  lemma LeastLoadedUnique(w: Week, d: Day, e: Day)
    requires IsLeastLoaded(w, d) && IsLeastLoaded(w, e)
    ensures d == e
  {
    assert Load(w, d) <= Load(w, e) && Load(w, e) <= Load(w, d);
    assert Index(d) == Index(e);
  }

  /** The head of a sequence of every day, by nondecreasing load and keeping
      the relative order `order` gives days of equal load, is the least
      loaded day. */
  lemma HeadIsLeastLoaded(w: Week, days: seq<Day>, order: seq<Day>)
    requires IndexedBy(order)
    requires forall e: Day :: e in days
    requires forall i, j :: 0 <= i < j < |days| ==> Load(w, days[i]) <= Load(w, days[j])
    requires forall z :: Peers(LoadLe(w), z, days) == Peers(LoadLe(w), z, order)
    ensures |days| > 0 && IsLeastLoaded(w, days[0])
  {
    assert Monday in days;
    forall e: Day ensures Load(w, days[0]) <= Load(w, e) {
      assert e in days;
      var k :| 0 <= k < |days| && days[k] == e;
      if k > 0 {
        assert Load(w, days[0]) <= Load(w, days[k]);
      }
    }
    forall e: Day | Load(w, e) == Load(w, days[0]) ensures Index(days[0]) <= Index(e) {
      TiedNotEarlierIn(w, days, order, e);
    }
  }

  /** `order` lists every day at its index. */
  predicate IndexedBy(order: seq<Day>) {
    && (forall e: Day :: Index(e) < |order| && order[Index(e)] == e)
    && (forall i :: 0 <= i < |order| ==> Index(order[i]) == i)
  }

  lemma DayOrderIndexes()
    ensures IndexedBy(DayOrder)
  {
  }

  lemma TiedNotEarlierIn(w: Week, days: seq<Day>, order: seq<Day>, e: Day)
    requires IndexedBy(order)
    requires |days| > 0 && Load(w, e) == Load(w, days[0])
    requires Peers(LoadLe(w), days[0], days) == Peers(LoadLe(w), days[0], order)
    ensures Index(days[0]) <= Index(e)
  {
    var le := LoadLe(w);
    var d0 := days[0];
    assert order[Index(e)] == e;
    assert Equiv(le, d0, order[Index(e)]);
    PeersHeadIsEarliest(le, d0, order, Index(e));
    assert Equiv(le, d0, days[0]);
    assert Peers(le, d0, days)[0] == d0;
    var i :| 0 <= i <= Index(e) && order[i] == Peers(le, d0, order)[0];
    assert Index(order[i]) == i;
  }

  /** The head of `DaysByLoad` is the least loaded day: the minimum load, and
      the earliest day among those with that load, since the sort is stable. */
  lemma DaysByLoadHead(w: Week)
    ensures IsLeastLoaded(w, DaysByLoad(w)[0])
  {
    DaysByLoadOrdered(w);
    DayOrderIndexes();
    HeadIsLeastLoaded(w, DaysByLoad(w), DayOrder);
  }

  /** On days ordered by load, the first fit is the first day or nothing: the
      capacity test is monotone in the load. */
  lemma FirstFitOnSorted(w: Week, days: seq<Day>, duration: nat)
    requires |days| > 0
    requires forall i, j :: 0 <= i < j < |days| ==> Load(w, days[i]) <= Load(w, days[j])
    ensures FirstFit(w, days, duration) == if CanAccommodate(w, days[0], duration) then Some(days[0]) else None
  {
    FirstFitSpec(w, days, duration);
    if !CanAccommodate(w, days[0], duration) {
      forall i | 0 <= i < |days| ensures !CanAccommodate(w, days[i], duration) {
        if i > 0 {
          CanAccommodateMonotone(w, days[0], days[i], duration);
        }
      }
    }
  }

  lemma FirstFitNoneIff(w: Week, days: seq<Day>, duration: nat)
    requires forall e: Day :: e in days
    ensures FirstFit(w, days, duration).None? <==> forall e: Day :: !CanAccommodate(w, e, duration)
  {
    FirstFitSpec(w, days, duration);
    if FirstFit(w, days, duration).None? {
      forall e: Day ensures !CanAccommodate(w, e, duration) {
        assert e in days;
        var k :| 0 <= k < |days| && days[k] == e;
      }
    }
  }

  /** The less loaded of two days, `a` on a tie. */
  function Lesser(w: Week, a: Day, b: Day): (d: Day)
    ensures Load(w, d) <= Load(w, a) && Load(w, d) <= Load(w, b)
    ensures d == a || d == b
    ensures Load(w, a) <= Load(w, b) ==> d == a
  {
    if Load(w, b) < Load(w, a) then b else a
  }

  /** The least loaded day of the week, as the specification of the choice. */
  ghost function LeastLoaded(w: Week): (d: Day)
    ensures IsLeastLoaded(w, d)
  {
    LeastLoadedExists(w);
    var d :| IsLeastLoaded(w, d); d
  }

  /** Every week has a least loaded day: one pass over the days in key order
      that only moves on to a strictly smaller total finds it. */
  lemma LeastLoadedExists(w: Week)
    ensures exists d :: IsLeastLoaded(w, d)
  {
    assert LeastUpTo(w, Monday, 1);
    var d := Lesser(w, Monday, Tuesday);
    LesserExtends(w, Monday, Tuesday, 1);
    LesserExtends(w, d, Wednesday, 2);
    d := Lesser(w, d, Wednesday);
    LesserExtends(w, d, Thursday, 3);
    d := Lesser(w, d, Thursday);
    LesserExtends(w, d, Friday, 4);
    d := Lesser(w, d, Friday);
    LesserExtends(w, d, Saturday, 5);
    d := Lesser(w, d, Saturday);
    LesserExtends(w, d, Sunday, 6);
    d := Lesser(w, d, Sunday);
    assert LeastUpTo(w, d, 7);
    assert IsLeastLoaded(w, d);
  }

  /** `d` is the least loaded of the first `n` days in key order. */
  ghost predicate LeastUpTo(w: Week, d: Day, n: nat) {
    && Index(d) < n
    && forall e: Day :: Index(e) < n ==> Load(w, d) <= Load(w, e) && (Load(w, e) == Load(w, d) ==> Index(d) <= Index(e))
  }

  /** One step of the pass: comparing with the next day keeps the least loaded. */
  lemma LesserExtends(w: Week, d: Day, e: Day, n: nat)
    requires LeastUpTo(w, d, n) && Index(e) == n
    ensures LeastUpTo(w, Lesser(w, d, e), n + 1)
  {
  }

  /** The greedy choice as the source makes it, a stable sort by load and a
      first fit, is the least loaded day when that day can take the task, and
      no day otherwise: the days after it are no less loaded and so cannot
      take it either. */
  lemma GreedyChoice(w: Week, duration: nat)
    ensures FirstFit(w, DaysByLoad(w), duration)
         == if CanAccommodate(w, LeastLoaded(w), duration) then Some(LeastLoaded(w)) else None
  {
    DaysByLoadOrdered(w);
    DaysByLoadHead(w);
    LeastLoadedUnique(w, DaysByLoad(w)[0], LeastLoaded(w));
    FirstFitOnSorted(w, DaysByLoad(w), duration);
  }

  /** A task goes to day `d` exactly when `d` is the least loaded day and `d`
      can take it (main.py:54-57). */
  lemma ChooseIsLeastLoaded(w: Week, duration: nat, d: Day)
    ensures FirstFit(w, DaysByLoad(w), duration) == Some(d)
        <==> IsLeastLoaded(w, d) && CanAccommodate(w, d, duration)
  {
    GreedyChoice(w, duration);
    if IsLeastLoaded(w, d) {
      LeastLoadedUnique(w, d, LeastLoaded(w));
    }
  }

  /** A task is dropped exactly when the least loaded day cannot take it, and
      that happens exactly when no day of the week can (main.py:55-59: the
      loop ends without placing it). */
  lemma DroppedIff(w: Week, duration: nat)
    ensures FirstFit(w, DaysByLoad(w), duration).None? <==> !CanAccommodate(w, LeastLoaded(w), duration)
    ensures !CanAccommodate(w, LeastLoaded(w), duration) <==> forall e: Day :: !CanAccommodate(w, e, duration)
  {
    GreedyChoice(w, duration);
    if !CanAccommodate(w, LeastLoaded(w), duration) {
        forall e: Day ensures !CanAccommodate(w, e, duration) {
        CanAccommodateMonotone(w, LeastLoaded(w), e, duration);
      }
    }
  }
}
