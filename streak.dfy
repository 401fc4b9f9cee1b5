/** app/models/streak.rb: the number of consecutive days, up to today, on
    which a user has sat. */
module Streaks {
  import opened Wrappers
  import opened Calendar
  import opened Schema

  /** `sits.today.count > 0`, `sits.yesterday.count > 0`. */
  predicate SatOn(rows: seq<Sit>, d: Date) {
    exists s :: s in rows && s.createdAt.date == d
  }

  /** The calendar dates of the rows, in row order. */
  function Dates(rows: seq<Sit>): (ds: seq<Date>)
    ensures |ds| == |rows|
    ensures forall i :: 0 <= i < |rows| ==> ds[i] == rows[i].createdAt.date
  {
    seq(|rows|, i requires 0 <= i < |rows| => rows[i].createdAt.date)
  }

  /** The walk over newest-first dates: a repeated date is skipped, a step
      to the day before counts one, any other step ends the walk. */
  function Walk(ds: seq<Date>): nat
    decreases |ds|
  {
    if |ds| < 2 then 0
    else if ds[1] == ds[0] then Walk(ds[1..])
    else if DayNumber(ds[0]) - DayNumber(ds[1]) == 1 then 1 + Walk(ds[1..])
    else 0
  }

  /** The streak: nothing unless the user sat yesterday; a walk of at least
      one step counts today too when the user sat today, and is discarded
      otherwise. */
  function StreakOf(rows: seq<Sit>, today: Date): nat {
    var walked := if SatOn(rows, PrevDate(today)) then Walk(Dates(rows)) else 0;
    if walked > 0 then (if SatOn(rows, today) then walked + 1 else 0) else 0
  }

  /** `user.streak`. `rows` is `sits.newest_first`: the user's sits under
      the default scope (private entries are not seen), latest first. */
  method Streak(table: seq<Sit>, owner: UserId, rows: seq<Sit>, today: Date) returns (count: nat)
    requires multiset(rows) == multiset(SitsOf(table, owner, false))
    requires NewestFirst(rows)
    ensures count == StreakOf(rows, today)
  {
    count := 0;
    if SatOn(rows, PrevDate(today)) {
      count := WalkSits(rows);
    }
    if count > 0 {
      if SatOn(rows, today) {
        count := count + 1;
      } else {
        count := 0;
      }
    }
  }

  /** The `each` loop of `streak` over newest-first rows: the count of
      one-day steps before the first larger gap. */
  method WalkSits(rows: seq<Sit>) returns (count: nat)
    ensures count == Walk(Dates(rows))
  {
    ghost var ds := Dates(rows);
    count := 0;
    var nextNewest: Option<Date> := None;
    var i := 0;
    while i < |rows|
      invariant 0 <= i <= |rows|
      invariant i == 0 <==> nextNewest == None
      invariant i == 0 ==> count == 0
      invariant i > 0 ==> nextNewest == Some(ds[i - 1]) && count + Walk(ds[i - 1..]) == Walk(ds)
    {
      var d := rows[i].createdAt.date;
      if nextNewest.Some? {
        WalkStep(ds, i);
        if d != nextNewest.value {
          var distance := DayNumber(nextNewest.value) - DayNumber(d);
          assert d == ds[i] && distance == DayNumber(ds[i - 1]) - DayNumber(ds[i]);
          if distance == 1 {
            count := count + 1;
          } else {
            break;
          }
        }
      }
      nextNewest := Some(d);
      i := i + 1;
    }
  }

  /** One step of the walk from position `i - 1`. */
  lemma WalkStep(ds: seq<Date>, i: nat)
    requires 0 < i < |ds|
    ensures Walk(ds[i - 1..]) ==
      if ds[i] == ds[i - 1] then Walk(ds[i..])
      else if DayNumber(ds[i - 1]) - DayNumber(ds[i]) == 1 then 1 + Walk(ds[i..])
      else 0
  {
    assert ds[i - 1..][1..] == ds[i..];
  }

  // ---------------------------------------------------------------------
  // What the streak promises

  /** No sit yesterday, no streak; a streak is never 1, and a non-zero one
      needs sits both today and yesterday. */
  lemma StreakShape(rows: seq<Sit>, today: Date)
    ensures !SatOn(rows, PrevDate(today)) ==> StreakOf(rows, today) == 0
    ensures StreakOf(rows, today) != 1
    ensures StreakOf(rows, today) > 0 ==> SatOn(rows, today) && SatOn(rows, PrevDate(today))
  {
  }

  /** The set of days, as `Date#-` counts them, on which the user sat. */
  function SatDays(ds: seq<Date>): set<int> {
    set d | d in ds :: DayNumber(d)
  }

  /** The sit days no later than `top`. */
  function SatDaysUpTo(ds: seq<Date>, top: int): set<int> {
    set x | x in SatDays(ds) && x <= top
  }

  /** Every step of the walk lands on a new, earlier sit day, so the walk
      from the first date makes fewer steps than there are sit days up to
      that date. */
  lemma {:induction false} WalkBoundedBySatDays(ds: seq<Date>)
    requires |ds| > 0
    ensures Walk(ds) + 1 <= |SatDaysUpTo(ds, DayNumber(ds[0]))|
    decreases |ds|
  {
    var top := DayNumber(ds[0]);
    assert top in SatDaysUpTo(ds, top);
    if |ds| >= 2 && (ds[1] == ds[0] || top - DayNumber(ds[1]) == 1) {
      var next := DayNumber(ds[1]);
      WalkBoundedBySatDays(ds[1..]);
      var rest := SatDaysUpTo(ds[1..], next);
      assert forall d :: d in ds[1..] ==> d in ds;
      assert rest <= SatDaysUpTo(ds, top);
      if ds[1] == ds[0] {
        SubsetSize(rest, SatDaysUpTo(ds, top));
      } else {
        assert top !in rest;
        SubsetSize(rest + {top}, SatDaysUpTo(ds, top));
      }
    } else {
      SubsetSize({top}, SatDaysUpTo(ds, top));
    }
  }

  lemma SubsetSize(a: set<int>, b: set<int>)
    requires a <= b
    ensures |a| <= |b|
  {
    assert b == a + (b - a);
  }

  /** Each step of the walk reaches a new sit day, so the streak is at most
      the number of days the user sat on. */
  lemma StreakAtMostSatDays(rows: seq<Sit>, today: Date)
    ensures StreakOf(rows, today) <= |SatDays(Dates(rows))|
  {
    var ds := Dates(rows);
    if StreakOf(rows, today) > 0 {
      WalkBoundedBySatDays(ds);
      SubsetSize(SatDaysUpTo(ds, DayNumber(ds[0])), SatDays(ds));
    }
  }

  /** Dates in newest-first order, each a real calendar date. */
  predicate DescendingDates(ds: seq<Date>) {
    && (forall i :: 0 <= i < |ds| ==> ValidDate(ds[i]))
    && (forall i, j :: 0 <= i < j < |ds| ==> DateAtMost(ds[j], ds[i]))
  }

  /** The days `top - w` up to `top` all have a sit, and the day before them
      has none: a run of exactly `w + 1` consecutive sit days ending at `top`. */
  predicate RunDown(days: set<int>, top: int, w: nat) {
    (forall x :: top - w <= x <= top ==> x in days) && top - w - 1 !in days
  }

  /** A run has one length. */
  lemma RunLengthUnique(days: set<int>, top: int, v: nat, w: nat)
    requires RunDown(days, top, v) && RunDown(days, top, w)
    ensures v == w
  {
  }

  /** The walk over day numbers rather than dates. */
  function NumWalk(ns: seq<int>): nat
    decreases |ns|
  {
    if |ns| < 2 then 0
    else if ns[1] == ns[0] then NumWalk(ns[1..])
    else if ns[0] - ns[1] == 1 then 1 + NumWalk(ns[1..])
    else 0
  }

  function DayNumbers(ds: seq<Date>): (ns: seq<int>)
    ensures |ns| == |ds|
    ensures forall i :: 0 <= i < |ds| ==> ns[i] == DayNumber(ds[i])
  {
    seq(|ds|, i requires 0 <= i < |ds| => DayNumber(ds[i]))
  }

  function Elements(ns: seq<int>): set<int> {
    set x | x in ns
  }

  predicate NonIncreasing(ns: seq<int>) {
    forall i, j :: 0 <= i < j < |ns| ==> ns[j] <= ns[i]
  }

  /** Over non-increasing day numbers, the walk counts the run of
      consecutive days that ends at the first one, less one. */
  lemma {:induction false} NumWalkIsRun(ns: seq<int>)
    requires |ns| > 0 && NonIncreasing(ns)
    ensures RunDown(Elements(ns), ns[0], NumWalk(ns))
    decreases |ns|
  {
    ElementsCons(ns);
    if |ns| == 1 {
      assert ns[1..] == [];
      RunOfOne(Elements(ns), ns[0]);
    } else {
      NonIncreasingTail(ns);
      NumWalkIsRun(ns[1..]);
      if ns[1] != ns[0] && ns[0] - ns[1] != 1 {
        GapLeavesDayBeforeEmpty(ns);
      }
      NumWalkStep(ns);
    }
  }

  lemma ElementsCons(ns: seq<int>)
    requires |ns| > 0
    ensures Elements(ns) == Elements(ns[1..]) + {ns[0]}
  {
    assert ns == [ns[0]] + ns[1..];
  }

  lemma NonIncreasingTail(ns: seq<int>)
    requires |ns| > 0 && NonIncreasing(ns)
    ensures NonIncreasing(ns[1..])
  {
    forall i, j | 0 <= i < j < |ns| - 1
      ensures ns[1..][j] <= ns[1..][i]
    {
      assert ns[1..][j] == ns[j + 1] && ns[1..][i] == ns[i + 1];
    }
  }

  /** A gap of more than one day after the first number leaves the day
      before it out. */
  lemma GapLeavesDayBeforeEmpty(ns: seq<int>)
    requires |ns| >= 2 && NonIncreasing(ns)
    requires ns[1] != ns[0] && ns[0] - ns[1] != 1
    ensures ns[0] - 1 !in Elements(ns)
  {
    forall x | x in ns && x != ns[0]
      ensures x < ns[0] - 1
    {
      var i :| 0 <= i < |ns| && ns[i] == x;
      assert ns[i] <= ns[1];
    }
  }

  /** One more number in front: a repeat keeps the run, the day before
      extends it, and a gap ends it. */
  lemma NumWalkStep(ns: seq<int>)
    requires |ns| >= 2
    requires RunDown(Elements(ns[1..]), ns[1], NumWalk(ns[1..]))
    requires Elements(ns) == Elements(ns[1..]) + {ns[0]}
    requires ns[1] != ns[0] && ns[0] - ns[1] != 1 ==> ns[0] - 1 !in Elements(ns)
    ensures RunDown(Elements(ns), ns[0], NumWalk(ns))
  {
    if ns[1] == ns[0] {
      assert ns[0] in Elements(ns[1..]);
    } else if ns[0] - ns[1] == 1 {
      RunExtends(Elements(ns[1..]), ns[0], NumWalk(ns[1..]));
    } else {
      RunOfOne(Elements(ns), ns[0]);
    }
  }

  /** On valid dates the walk over dates and the walk over their day
      numbers agree: equal day numbers mean equal dates. */
  lemma {:induction false} WalkIsNumWalk(ds: seq<Date>)
    requires forall i :: 0 <= i < |ds| ==> ValidDate(ds[i])
    ensures Walk(ds) == NumWalk(DayNumbers(ds))
    decreases |ds|
  {
    if |ds| >= 2 {
      WalkIsNumWalk(ds[1..]);
      assert DayNumbers(ds)[1..] == DayNumbers(ds[1..]);
      if DateBefore(ds[1], ds[0]) {
        DayNumberMonotone(ds[1], ds[0]);
      } else if DateBefore(ds[0], ds[1]) {
        DayNumberMonotone(ds[0], ds[1]);
      }
    }
  }

  lemma SatDaysAreDayNumbers(ds: seq<Date>)
    ensures SatDays(ds) == Elements(DayNumbers(ds))
  {
    var ns := DayNumbers(ds);
    forall x | x in SatDays(ds)
      ensures x in ns
    {
      var d :| d in ds && DayNumber(d) == x;
      var i :| 0 <= i < |ds| && ds[i] == d;
      assert ns[i] == x;
    }
    forall x | x in ns
      ensures x in SatDays(ds)
    {
      var i :| 0 <= i < |ns| && ns[i] == x;
      assert ds[i] in ds;
    }
  }

  lemma DayNumbersNonIncreasing(ds: seq<Date>)
    requires DescendingDates(ds)
    ensures NonIncreasing(DayNumbers(ds))
  {
    var ns := DayNumbers(ds);
    forall i, j | 0 <= i < j < |ns|
      ensures ns[j] <= ns[i]
    {
      if ds[j] != ds[i] {
        DayNumberMonotone(ds[j], ds[i]);
      }
    }
  }

  lemma RunOfOne(days: set<int>, top: int)
    requires top in days && top - 1 !in days
    ensures RunDown(days, top, 0)
  {
  }

  lemma RunExtends(days: set<int>, top: int, w: nat)
    requires RunDown(days, top - 1, w)
    ensures RunDown(days + {top}, top, w + 1)
  {
  }

  /** The walk from the newest date counts the run of consecutive sit days
      that ends on that date, less one. */
  lemma WalkIsRun(ds: seq<Date>)
    requires |ds| > 0 && DescendingDates(ds)
    ensures RunDown(SatDays(ds), DayNumber(ds[0]), Walk(ds))
  {
    WalkIsNumWalk(ds);
    DayNumbersNonIncreasing(ds);
    NumWalkIsRun(DayNumbers(ds));
    SatDaysAreDayNumbers(ds);
  }

  /** On valid dates, having a sit on a date and having a sit on its day
      number are the same. */
  lemma SatOnIsSatDay(rows: seq<Sit>, d: Date)
    requires ValidDate(d)
    requires forall s :: s in rows ==> ValidDate(s.createdAt.date)
    ensures SatOn(rows, d) <==> DayNumber(d) in SatDays(Dates(rows))
  {
    var ds := Dates(rows);
    if SatOn(rows, d) {
      var s :| s in rows && s.createdAt.date == d;
      var i :| 0 <= i < |rows| && rows[i] == s;
      assert ds[i] == d;
    }
    if DayNumber(d) in SatDays(ds) {
      var e :| e in ds && DayNumber(e) == DayNumber(d);
      var i :| 0 <= i < |ds| && ds[i] == e;
      assert rows[i] in rows;
      if DateBefore(e, d) {
        DayNumberMonotone(e, d);
      } else if DateBefore(d, e) {
        DayNumberMonotone(d, e);
      }
    }
  }

  /** With nothing after today, a sit today is the newest row. */
  lemma NewestIsToday(rows: seq<Sit>, today: Date)
    requires NewestFirst(rows) && SatOn(rows, today)
    requires forall s :: s in rows ==> DateAtMost(s.createdAt.date, today)
    ensures |rows| > 0 && rows[0].createdAt.date == today
  {
    var s :| s in rows && s.createdAt.date == today;
    var i :| 0 <= i < |rows| && rows[i] == s;
    assert rows[0] in rows;
    if i > 0 {
      assert StampAtMost(rows[i].createdAt, rows[0].createdAt);
    }
  }

  lemma DescendingDatesOf(rows: seq<Sit>)
    requires NewestFirst(rows)
    requires forall s :: s in rows ==> ValidDate(s.createdAt.date)
    ensures DescendingDates(Dates(rows))
  {
    var ds := Dates(rows);
    forall i, j | 0 <= i < j < |ds|
      ensures DateAtMost(ds[j], ds[i])
    {
      assert StampAtMost(rows[j].createdAt, rows[i].createdAt);
    }
    forall i | 0 <= i < |ds|
      ensures ValidDate(ds[i])
    {
      assert rows[i] in rows;
    }
  }

  /** What the streak means: with no sit after today, the streak is `k > 0`
      exactly when `k` is at least 2, the user sat on each of the `k` days
      up to and including today, and did not sit on the day before them. */
  lemma StreakIsRunEndingToday(rows: seq<Sit>, today: Date, k: nat)
    requires ValidDate(today) && NewestFirst(rows)
    requires forall s :: s in rows ==> ValidDate(s.createdAt.date) && DateAtMost(s.createdAt.date, today)
    ensures StreakOf(rows, today) == k && k > 0 <==>
      k >= 2 && RunDown(SatDays(Dates(rows)), DayNumber(today), k - 1)
  {
    StreakIsRun(rows, today);
    RunLengthIs(StreakOf(rows, today), SatDays(Dates(rows)), DayNumber(today), k);
  }

  /** The streak is 0 exactly when the user did not sit both today and
      yesterday; otherwise it is the length of the run of sit days ending
      today. */
  lemma StreakIsRun(rows: seq<Sit>, today: Date)
    requires ValidDate(today) && NewestFirst(rows)
    requires forall s :: s in rows ==> ValidDate(s.createdAt.date) && DateAtMost(s.createdAt.date, today)
    ensures StreakOf(rows, today) == 0 <==>
      !(DayNumber(today) in SatDays(Dates(rows)) && DayNumber(today) - 1 in SatDays(Dates(rows)))
    ensures StreakOf(rows, today) > 0 ==>
      RunDown(SatDays(Dates(rows)), DayNumber(today), StreakOf(rows, today) - 1)
  {
    if SatOn(rows, today) && SatOn(rows, PrevDate(today)) {
      StreakWhenSatTodayAndYesterday(rows, today);
    }
    StreakFromWalk(rows, today);
  }

  // ---------------------------------------------------------------------
  // Sits dated after today

  /** The position of the first row dated no later than `today`. */
  function FirstNotAfter(rows: seq<Sit>, today: Date): (n: nat)
    ensures n <= |rows|
    ensures forall i :: 0 <= i < n ==> !DateAtMost(rows[i].createdAt.date, today)
    ensures n < |rows| ==> DateAtMost(rows[n].createdAt.date, today)
    decreases |rows|
  {
    if rows == [] || DateAtMost(rows[0].createdAt.date, today) then 0
    else
      var n := 1 + FirstNotAfter(rows[1..], today);
      assert forall i :: 1 <= i < n ==> rows[i] == rows[1..][i - 1];
      n
  }

  /** The streak over the sits dated no later than today: the walk then
      starts at today's sit, as the streak evidently intends. */
  function StreakUpToToday(rows: seq<Sit>, today: Date): nat {
    StreakOf(rows[FirstNotAfter(rows, today)..], today)
  }

  /** Whatever dates the table holds, the streak over the sits up to today
      is `k > 0` exactly when the user sat on each of the `k` days ending
      today and not on the day before them. */
  lemma StreakUpToTodayIsRunEndingToday(rows: seq<Sit>, today: Date, k: nat)
    requires ValidDate(today) && NewestFirst(rows)
    requires forall s :: s in rows ==> ValidDate(s.createdAt.date)
    ensures StreakUpToToday(rows, today) == k && k > 0 <==>
      k >= 2 && RunDown(SatDays(Dates(rows)), DayNumber(today), k - 1)
  {
    var n := FirstNotAfter(rows, today);
    PastRowsNotAfter(rows, today, n);
    StreakIsRunEndingToday(rows[n..], today, k);
    if k >= 1 {
      SameDaysUpToToday(rows, today, n);
      RunDownSameBelow(SatDays(Dates(rows[n..])), SatDays(Dates(rows)), DayNumber(today), k - 1);
    }
  }

  /** From the first row not after today on, the rows stay newest first and
      none lies after today. */
  lemma PastRowsNotAfter(rows: seq<Sit>, today: Date, n: nat)
    requires NewestFirst(rows) && n == FirstNotAfter(rows, today)
    requires forall s :: s in rows ==> ValidDate(s.createdAt.date)
    ensures NewestFirst(rows[n..])
    ensures forall s :: s in rows[n..] ==> ValidDate(s.createdAt.date) && DateAtMost(s.createdAt.date, today)
  {
    NewestFirstSuffix(rows, n);
    forall s | s in rows[n..]
      ensures ValidDate(s.createdAt.date) && DateAtMost(s.createdAt.date, today)
    {
      var i :| n <= i < |rows| && rows[i] == s;
      assert rows[i] in rows;
      if i > n {
        assert StampAtMost(rows[i].createdAt, rows[n].createdAt);
        DateAtMostTrans(rows[i].createdAt.date, rows[n].createdAt.date, today);
      }
    }
  }

  lemma NewestFirstSuffix(rows: seq<Sit>, n: nat)
    requires NewestFirst(rows) && n <= |rows|
    ensures NewestFirst(rows[n..])
  {
    var past := rows[n..];
    forall i, j | 0 <= i < j < |past|
      ensures StampAtMost(past[j].createdAt, past[i].createdAt)
    {
      assert past[i] == rows[n + i] && past[j] == rows[n + j];
    }
  }

  lemma DateAtMostTrans(a: Date, b: Date, c: Date)
    requires DateAtMost(a, b) && DateAtMost(b, c)
    ensures DateAtMost(a, c)
  {
  }

  /** Leaving out the rows dated after today changes no day up to today. */
  lemma SameDaysUpToToday(rows: seq<Sit>, today: Date, n: nat)
    requires ValidDate(today) && n == FirstNotAfter(rows, today)
    requires forall s :: s in rows ==> ValidDate(s.createdAt.date)
    ensures forall x :: x <= DayNumber(today) ==>
      (x in SatDays(Dates(rows[n..])) <==> x in SatDays(Dates(rows)))
  {
    SuffixDaysAreDays(rows, n);
    forall x | x in SatDays(Dates(rows)) && x !in SatDays(Dates(rows[n..]))
      ensures DayNumber(today) < x
    {
      var d :| d in Dates(rows) && DayNumber(d) == x;
      var i :| 0 <= i < |rows| && Dates(rows)[i] == d;
      if n <= i {
        assert false;
      }
      assert rows[i] in rows;
      AfterTodayIsLaterDay(today, d);
    }
  }

  lemma SuffixDaysAreDays(rows: seq<Sit>, n: nat)
    requires n <= |rows|
    ensures SatDays(Dates(rows[n..])) <= SatDays(Dates(rows))
  {
    forall d | d in Dates(rows[n..])
      ensures d in Dates(rows)
    {
      var i :| 0 <= i < |rows| - n && Dates(rows[n..])[i] == d;
      assert Dates(rows)[n + i] == d;
    }
  }

  lemma AfterTodayIsLaterDay(today: Date, d: Date)
    requires ValidDate(today) && ValidDate(d) && !DateAtMost(d, today)
    ensures DayNumber(today) < DayNumber(d)
  {
    DayNumberMonotone(today, d);
  }

  /** A run down from `t` looks at no day above `t`. */
  lemma RunDownSameBelow(a: set<int>, b: set<int>, t: int, w: nat)
    requires forall x :: x <= t ==> (x in a <==> x in b)
    ensures RunDown(a, t, w) <==> RunDown(b, t, w)
  {
  }

  /** As written, the walk starts at the newest sit even when it is dated
      after today: one more than a day ahead ends the walk at once, though
      the user sat today and yesterday, and one dated tomorrow adds a day. */
  lemma FutureSitChangesStreak(today: Date, later: Date, tomorrow: Date)
    requires ValidDate(today) && ValidDate(later) && ValidDate(tomorrow)
    requires DayNumber(later) - DayNumber(today) > 1
    requires DayNumber(tomorrow) - DayNumber(today) == 1
    ensures StreakOf([SitAt(later, 0), SitAt(today, 0), SitAt(PrevDate(today), 0)], today) == 0
    ensures StreakOf([SitAt(tomorrow, 0), SitAt(today, 0), SitAt(PrevDate(today), 0)], today) == 3
  {
    LaterSitEndsWalk(today, later);
    TomorrowSitAddsDay(today, tomorrow);
  }

  lemma LaterSitEndsWalk(today: Date, later: Date)
    requires ValidDate(today) && ValidDate(later)
    requires DayNumber(later) - DayNumber(today) > 1
    ensures StreakOf([SitAt(later, 0), SitAt(today, 0), SitAt(PrevDate(today), 0)], today) == 0
  {
    var y := PrevDate(today);
    var rows := [SitAt(later, 0), SitAt(today, 0), SitAt(y, 0)];
    assert Walk([later, today, y]) == 0 by {
      assert later != today;
    }
    assert Dates(rows) == [later, today, y];
  }

  lemma TomorrowSitAddsDay(today: Date, tomorrow: Date)
    requires ValidDate(today) && ValidDate(tomorrow)
    requires DayNumber(tomorrow) - DayNumber(today) == 1
    ensures StreakOf([SitAt(tomorrow, 0), SitAt(today, 0), SitAt(PrevDate(today), 0)], today) == 3
  {
    var y := PrevDate(today);
    var rows := [SitAt(tomorrow, 0), SitAt(today, 0), SitAt(y, 0)];
    assert Walk([tomorrow, today, y]) == 2 by {
      DayNumberOfPrevDate(today);
      assert tomorrow != today && y != today;
      assert Walk([today, y]) == 1 + Walk([y]);
      assert [tomorrow, today, y][1..] == [today, y];
    }
    assert Dates(rows) == [tomorrow, today, y];
    assert SatOn(rows, today) && SatOn(rows, y) by {
      assert rows[1] in rows && rows[2] in rows;
    }
  }

  /** The same, given what the walk counts when the user sat today and
      yesterday. */
  lemma StreakFromWalk(rows: seq<Sit>, today: Date)
    requires ValidDate(today)
    requires forall s :: s in rows ==> ValidDate(s.createdAt.date)
    requires SatOn(rows, today) && SatOn(rows, PrevDate(today)) ==>
      && StreakOf(rows, today) == (if Walk(Dates(rows)) > 0 then Walk(Dates(rows)) + 1 else 0)
      && RunDown(SatDays(Dates(rows)), DayNumber(today), Walk(Dates(rows)))
    ensures StreakOf(rows, today) == 0 <==>
      !(DayNumber(today) in SatDays(Dates(rows)) && DayNumber(today) - 1 in SatDays(Dates(rows)))
    ensures StreakOf(rows, today) > 0 ==>
      RunDown(SatDays(Dates(rows)), DayNumber(today), StreakOf(rows, today) - 1)
  {
    BothDaysOrNoStreak(rows, today);
    StreakRunLogic(StreakOf(rows, today), Walk(Dates(rows)), SatDays(Dates(rows)), DayNumber(today),
                   SatOn(rows, today) && SatOn(rows, PrevDate(today)));
  }

  /** Sits today and yesterday, as day numbers; without both, no streak. */
  lemma BothDaysOrNoStreak(rows: seq<Sit>, today: Date)
    requires ValidDate(today)
    requires forall s :: s in rows ==> ValidDate(s.createdAt.date)
    ensures SatOn(rows, today) && SatOn(rows, PrevDate(today)) <==>
      DayNumber(today) in SatDays(Dates(rows)) && DayNumber(today) - 1 in SatDays(Dates(rows))
    ensures !(SatOn(rows, today) && SatOn(rows, PrevDate(today))) ==> StreakOf(rows, today) == 0
  {
    SatTodayAndYesterdayAsDays(rows, today);
    StreakShape(rows, today);
  }

  /** A count that is 0 exactly when the top two days are not both sit days,
      and otherwise is the run's length, is the only `k > 0` with a run of
      `k` days. */
  lemma RunLengthIs(n: nat, days: set<int>, t: int, k: nat)
    requires n == 0 <==> !(t in days && t - 1 in days)
    requires n > 0 ==> RunDown(days, t, n - 1)
    ensures n == k && k > 0 <==> k >= 2 && RunDown(days, t, k - 1)
  {
    if k >= 2 && RunDown(days, t, k - 1) {
      assert t in days && t - 1 in days;
      RunLengthUnique(days, t, n - 1, k - 1);
    }
  }

  lemma SatTodayAndYesterdayAsDays(rows: seq<Sit>, today: Date)
    requires ValidDate(today)
    requires forall s :: s in rows ==> ValidDate(s.createdAt.date)
    ensures SatOn(rows, today) && SatOn(rows, PrevDate(today)) <==>
      DayNumber(today) in SatDays(Dates(rows)) && DayNumber(today) - 1 in SatDays(Dates(rows))
  {
    DayNumberOfPrevDate(today);
    SatOnIsSatDay(rows, today);
    SatOnIsSatDay(rows, PrevDate(today));
  }

  /** With sits today and yesterday, the streak is one more than the walk,
      which counts the run ending today. */
  lemma StreakWhenSatTodayAndYesterday(rows: seq<Sit>, today: Date)
    requires ValidDate(today) && NewestFirst(rows)
    requires forall s :: s in rows ==> ValidDate(s.createdAt.date) && DateAtMost(s.createdAt.date, today)
    requires SatOn(rows, today) && SatOn(rows, PrevDate(today))
    ensures StreakOf(rows, today) == if Walk(Dates(rows)) > 0 then Walk(Dates(rows)) + 1 else 0
    ensures RunDown(SatDays(Dates(rows)), DayNumber(today), Walk(Dates(rows)))
  {
    var ds := Dates(rows);
    assert |ds| > 0 && ds[0] == today by {
      NewestIsToday(rows, today);
    }
    DescendingDatesOf(rows);
    WalkIsRun(ds);
  }

  lemma StreakRunLogic(streak: nat, walk: nat, days: set<int>, t: int, both: bool)
    requires both <==> t in days && t - 1 in days
    requires both ==> streak == (if walk > 0 then walk + 1 else 0) && RunDown(days, t, walk)
    requires !both ==> streak == 0
    ensures streak == 0 <==> !(t in days && t - 1 in days)
    ensures streak > 0 ==> RunDown(days, t, streak - 1)
  {
  }

  /** A second sit on a day that is already next to it in the walk changes
      nothing. */
  lemma {:induction false} WalkIgnoresRepeat(x: seq<Date>, d: Date, y: seq<Date>)
    ensures Walk(x + [d, d] + y) == Walk(x + [d] + y)
    decreases |x|
  {
    var long, short := x + [d, d] + y, x + [d] + y;
    if x == [] {
      assert long[1..] == short;
    } else {
      WalkIgnoresRepeat(x[1..], d, y);
      assert long[1..] == x[1..] + [d, d] + y;
      assert short[1..] == x[1..] + [d] + y;
      assert long[1] == short[1];
    }
  }

  /** Adding a sit on a day the user already sat on, next to a sit of that
      day in newest-first order, leaves the streak unchanged. */
  lemma SameDaySitChangesNothing(a: seq<Sit>, s: Sit, b: seq<Sit>, today: Date)
    requires (a != [] && a[|a| - 1].createdAt.date == s.createdAt.date)
          || (b != [] && b[0].createdAt.date == s.createdAt.date)
    ensures StreakOf(a + [s] + b, today) == StreakOf(a + b, today)
  {
    SameDaySitSameWalk(a, s, b);
    SameDaySitSameDays(a, s, b);
  }

  lemma SameDaySitSameWalk(a: seq<Sit>, s: Sit, b: seq<Sit>)
    requires (a != [] && a[|a| - 1].createdAt.date == s.createdAt.date)
          || (b != [] && b[0].createdAt.date == s.createdAt.date)
    ensures Walk(Dates(a + [s] + b)) == Walk(Dates(a + b))
  {
    var d := s.createdAt.date;
    if a != [] && a[|a| - 1].createdAt.date == d {
      var x := Dates(a[..|a| - 1]);
      assert Dates(a + [s] + b) == x + [d, d] + Dates(b);
      assert Dates(a + b) == x + [d] + Dates(b);
      WalkIgnoresRepeat(x, d, Dates(b));
    } else {
      assert Dates(a + [s] + b) == Dates(a) + [d, d] + Dates(b[1..]);
      assert Dates(a + b) == Dates(a) + [d] + Dates(b[1..]);
      WalkIgnoresRepeat(Dates(a), d, Dates(b[1..]));
    }
  }

  lemma SameDaySitSameDays(a: seq<Sit>, s: Sit, b: seq<Sit>)
    requires (a != [] && a[|a| - 1].createdAt.date == s.createdAt.date)
          || (b != [] && b[0].createdAt.date == s.createdAt.date)
    ensures forall d :: SatOn(a + [s] + b, d) == SatOn(a + b, d)
  {
    var w := if a != [] && a[|a| - 1].createdAt.date == s.createdAt.date then a[|a| - 1] else b[0];
    assert w in a + b && w.createdAt.date == s.createdAt.date;
    assert forall t :: t in a + [s] + b ==> t in a + b || t == s;
    assert forall t :: t in a + b ==> t in a + [s] + b;
  }

  // ---------------------------------------------------------------------
  // The cases the test suite pins down

  function SitAt(d: Date, second: int): Sit {
    Sit(0, 1, Stamp(d, second), 0, "", 20, "", false, [])
  }

  /** Sits yesterday and today make a streak of 2. */
  lemma YesterdayAndToday(today: Date)
    requires ValidDate(today)
    ensures StreakOf([SitAt(today, 0), SitAt(PrevDate(today), 0)], today) == 2
  {
    var rows := [SitAt(today, 0), SitAt(PrevDate(today), 0)];
    assert Walk([today, PrevDate(today)]) == 1 by {
      DayNumberOfPrevDate(today);
      assert PrevDate(today) != today;
      assert [today, PrevDate(today)][1..] == [PrevDate(today)];
    }
    assert Dates(rows) == [today, PrevDate(today)];
    assert SatOn(rows, today) && SatOn(rows, PrevDate(today)) by {
      assert rows[1] in rows && rows[0] in rows;
    }
  }

  /** Sits on the two days before today and a morning sit today make 3; an
      evening sit today keeps it at 3. */
  lemma TwoDaysThenToday(today: Date)
    requires ValidDate(today)
    ensures var y := PrevDate(today);
      var morning := [SitAt(today, 9 * 3600), SitAt(y, 0), SitAt(PrevDate(y), 0)];
      && StreakOf(morning, today) == 3
      && StreakOf([SitAt(today, 19 * 3600)] + morning, today) == 3
  {
    var y := PrevDate(today);
    var morning := [SitAt(today, 9 * 3600), SitAt(y, 0), SitAt(PrevDate(y), 0)];
    var evening := SitAt(today, 19 * 3600);
    assert StreakOf(morning, today) == 3 by {
      ThreeDaysInARow(today);
    }
    assert StreakOf([evening] + morning, today) == StreakOf(morning, today) by {
      SameDaySitChangesNothing([], evening, morning, today);
      assert [] + [evening] + morning == [evening] + morning;
      assert [] + morning == morning;
    }
  }

  lemma ThreeDaysInARow(today: Date)
    requires ValidDate(today)
    ensures var y := PrevDate(today);
      StreakOf([SitAt(today, 9 * 3600), SitAt(y, 0), SitAt(PrevDate(y), 0)], today) == 3
  {
    var y := PrevDate(today);
    var y2 := PrevDate(y);
    var morning := [SitAt(today, 9 * 3600), SitAt(y, 0), SitAt(y2, 0)];
    assert Walk([today, y, y2]) == 2 by {
      DayNumberOfPrevDate(today);
      DayNumberOfPrevDate(y);
      assert y != today && y2 != y;
      assert Walk([y, y2]) == 1 + Walk([y2]);
      assert [today, y, y2][1..] == [y, y2];
    }
    assert Dates(morning) == [today, y, y2];
    assert SatOn(morning, today) && SatOn(morning, y) by {
      assert morning[0] in morning && morning[1] in morning;
    }
  }

  /** Missing yesterday resets the streak, whatever came before. */
  lemma MissedYesterday(today: Date)
    requires ValidDate(today)
    ensures var y := PrevDate(today);
      StreakOf([SitAt(today, 0), SitAt(PrevDate(y), 0), SitAt(PrevDate(PrevDate(y)), 0)], today) == 0
  {
    var y := PrevDate(today);
    var rows := [SitAt(today, 0), SitAt(PrevDate(y), 0), SitAt(PrevDate(PrevDate(y)), 0)];
    assert DateBefore(PrevDate(y), y);
    assert DateBefore(PrevDate(PrevDate(y)), PrevDate(y));
    assert forall s :: s in rows ==> s.createdAt.date != y;
  }
}
