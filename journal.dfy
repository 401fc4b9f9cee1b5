/** app/models/journal.rb: a user's journal as seen by one viewer, with its
    day- and month-bucketed statistics and the month navigation. */
module Journals {
  import opened Wrappers
  import opened Calendar
  import opened Text
  import opened Lists
  import opened Schema
  import opened Users
  import Sits

  /** `Journal.new(user, current_user)`: whose journal, and who is looking
      (None when nobody is signed in). */
  datatype Journal = Journal(owner: Owner, viewer: Option<UserId>)

  /** `viewing_my_journal?` */
  predicate ViewingMyJournal(j: Journal) {
    j.viewer == Some(j.owner.id)
  }

  /** `sits`: the owner's sits under the default scope. */
  function OwnSits(j: Journal, table: seq<Sit>): (r: seq<Sit>)
    ensures forall s :: s in r <==> s in table && s.userId == j.owner.id && !s.isPrivate
  {
    SitsOf(table, j.owner.id, false)
  }

  /** The owner's sits as this viewer's queries see them: private ones only
      for the owner (`Sit.unscoped`). */
  function ViewedSits(j: Journal, table: seq<Sit>): (r: seq<Sit>)
    ensures forall s :: s in r <==> s in table && s.userId == j.owner.id && (ViewingMyJournal(j) || !s.isPrivate)
  {
    SitsOf(table, j.owner.id, ViewingMyJournal(j))
  }

  /** `has_sat?` */
  predicate HasSat(j: Journal, table: seq<Sit>) {
    OwnSits(j, table) != []
  }

  /** `latest_sit`: the newest entry the viewer may see. */
  function LatestSit(j: Journal, table: seq<Sit>): (r: Option<Sit>)
    ensures r.None? <==> ViewedSits(j, table) == []
    ensures r.Some? ==> r.value in ViewedSits(j, table)
    ensures r.Some? ==> forall s :: s in ViewedSits(j, table) ==> StampAtMost(s.createdAt, r.value.createdAt)
  {
    Sits.Latest(ViewedSits(j, table))
  }

  /** `first_sit`: the oldest entry the viewer may see. */
  function FirstSit(j: Journal, table: seq<Sit>): (r: Option<Sit>)
    ensures r.None? <==> ViewedSits(j, table) == []
    ensures r.Some? ==> r.value in ViewedSits(j, table)
    ensures r.Some? ==> forall s :: s in ViewedSits(j, table) ==> StampAtMost(r.value.createdAt, s.createdAt)
  {
    Sits.Earliest(ViewedSits(j, table))
  }

  /** The journal of `owner` as its owner sees it. */
  function OwnView(owner: Owner): Journal {
    Journal(owner, Some(owner.id))
  }

  /** Private entries reach only the owner, and the owner's view holds every
      entry any other viewer sees: its latest entry is no older and its
      first entry no newer. */
  lemma OwnerViewIsWidest(j: Journal, table: seq<Sit>)
    ensures forall s :: s in ViewedSits(j, table) && s.isPrivate ==> ViewingMyJournal(j)
    ensures forall s :: s in ViewedSits(j, table) ==> s in ViewedSits(OwnView(j.owner), table)
    ensures LatestSit(j, table).Some? ==>
      && LatestSit(OwnView(j.owner), table).Some?
      && StampAtMost(LatestSit(j, table).value.createdAt, LatestSit(OwnView(j.owner), table).value.createdAt)
    ensures FirstSit(j, table).Some? ==>
      && FirstSit(OwnView(j.owner), table).Some?
      && StampAtMost(FirstSit(OwnView(j.owner), table).value.createdAt, FirstSit(j, table).value.createdAt)
  {
    var mine := OwnView(j.owner);
    if LatestSit(j, table).Some? {
      var l := LatestSit(j, table).value;
      assert l in ViewedSits(mine, table);
    }
    if FirstSit(j, table).Some? {
      var f := FirstSit(j, table).value;
      assert f in ViewedSits(mine, table);
    }
  }

  // ---------------------------------------------------------------------
  // Sums and filters

  /** The sum of the durations, `sum(:duration)`. */
  function SumDurations(rows: seq<Sit>): int {
    if rows == [] then 0 else SumDurations(rows[..|rows| - 1]) + rows[|rows| - 1].duration
  }

  /** `where(created_at: date.beginning_of_day..date.end_of_day)` */
  function OnDate(rows: seq<Sit>, d: Date): (r: seq<Sit>)
    ensures forall s :: s in r <==> s in rows && s.createdAt.date == d
    ensures |r| <= |rows|
  {
    if rows == [] then []
    else
      var init := OnDate(rows[..|rows| - 1], d);
      if rows[|rows| - 1].createdAt.date == d then init + [rows[|rows| - 1]] else init
  }

  /** `where(created_at: start.beginning_of_day..end.end_of_day)` */
  function InRange(rows: seq<Sit>, start: Date, end: Date): (r: seq<Sit>)
    ensures forall s :: s in r <==> s in rows && DateAtMost(start, s.createdAt.date) && DateAtMost(s.createdAt.date, end)
  {
    Sits.Filter(rows, (s: Sit) => DateAtMost(start, s.createdAt.date) && DateAtMost(s.createdAt.date, end))
  }

  /** The rows created in the given month and year (the two `EXTRACT`
      conditions). */
  function InMonth(rows: seq<Sit>, ym: YearMonth): (r: seq<Sit>)
    ensures forall s :: s in r <==> s in rows && MonthOf(s.createdAt.date) == ym
  {
    Sits.Filter(rows, (s: Sit) => MonthOf(s.createdAt.date) == ym)
  }

  /** `total_hours_sat`: whole hours of the shared entries, rounded down. */
  function TotalHoursSat(j: Journal, table: seq<Sit>): (hours: int)
    ensures hours * 60 <= SumDurations(OwnSits(j, table)) < hours * 60 + 60
  {
    SumDurations(OwnSits(j, table)) / 60
  }

  /** `sits_by_year`: the shared entries of one calendar year. */
  function SitsByYear(j: Journal, table: seq<Sit>, year: int): (r: seq<Sit>)
    ensures forall s :: s in r <==> s in OwnSits(j, table) && s.createdAt.date.year == year
  {
    Sits.Filter(OwnSits(j, table), (s: Sit) => s.createdAt.date.year == year)
  }

  /** Whether `sits_by_month` has anything to return for this viewer: the
      owner, or a signed-in viewer allowed to see the owner's content. */
  predicate MayBrowse(j: Journal, social: Social) {
    ViewingMyJournal(j) || (j.viewer.Some? && CanViewContentOf(j.viewer.value, j.owner, social))
  }

  /** `sits_by_month`: the owner sees every entry of the month, a permitted
      viewer the shared ones, anyone else gets nil. */
  function SitsByMonth(j: Journal, table: seq<Sit>, social: Social, ym: YearMonth): (r: Option<seq<Sit>>)
    ensures r.None? <==> !MayBrowse(j, social)
    ensures r.Some? ==> forall s :: s in r.value <==>
      s in table && s.userId == j.owner.id && MonthOf(s.createdAt.date) == ym && (ViewingMyJournal(j) || !s.isPrivate)
  {
    if MayBrowse(j, social) then Some(InMonth(ViewedSits(j, table), ym)) else None
  }

  /** A permitted viewer's month is part of the owner's month. */
  lemma SitsByMonthOwnerSeesMore(j: Journal, table: seq<Sit>, social: Social, ym: YearMonth)
    requires SitsByMonth(j, table, social, ym).Some?
    ensures SitsByMonth(OwnView(j.owner), table, social, ym).Some?
    ensures forall s :: s in SitsByMonth(j, table, social, ym).value ==>
      s in SitsByMonth(OwnView(j.owner), table, social, ym).value
  {
    assert MayBrowse(OwnView(j.owner), social);
  }

  // ---------------------------------------------------------------------
  // Time sat this month

  /** "H hours", then " M minutes" unless M is 0, for `minutes.divmod(60)`
      (floor division, so the minutes part is never negative). */
  function FormatTimeSat(minutes: int): string {
    var hours, rest := minutes / 60, minutes % 60;
    IntToString(hours) + " hours" + (if rest != 0 then " " + NatToString(rest) + " minutes" else "")
  }

  /** `time_sat_this_month`: the shared minutes of the month, formatted. */
  function TimeSatThisMonth(j: Journal, table: seq<Sit>, ym: YearMonth): (r: string)
    ensures var minutes := SumDurations(InMonth(OwnSits(j, table), ym));
      minutes >= 0 ==> ParseTimeSat(r) == minutes
  {
    var minutes := SumDurations(InMonth(OwnSits(j, table), ym));
    if minutes >= 0 then
      FormatTimeSatReadsBack(minutes);
      FormatTimeSat(minutes)
    else
      FormatTimeSat(minutes)
  }

  /** Reads the minutes back from "H hours" or "H hours M minutes". */
  function ParseTimeSat(text: string): int {
    var h := LeadingDigits(text);
    var rest := text[|h|..];
    DecimalValue(h) * 60 + (if |rest| > 7 then ToI(rest[7..]) else 0)
  }

  /** The formatted time loses nothing: reading it back gives the minutes. */
  lemma FormatTimeSatReadsBack(minutes: nat)
    ensures ParseTimeSat(FormatTimeSat(minutes)) == minutes
  {
    var hours, rest := minutes / 60, minutes % 60;
    var tail := if rest != 0 then " " + NatToString(rest) + " minutes" else "";
    assert FormatTimeSat(minutes) == NatToString(hours) + (" hours" + tail);
    HoursReadBack(hours, " hours" + tail);
    MinutesReadBack(rest, tail);
  }

  /** The hours come back from the leading digits, and the rest of the text
      is what followed them. */
  lemma HoursReadBack(hours: nat, after: string)
    requires |after| > 0 && after[0] == ' '
    ensures var text := NatToString(hours) + after;
      ParseTimeSat(text) == hours * 60 + (if |after| > 7 then ToI(after[7..]) else 0)
  {
    var text := NatToString(hours) + after;
    LeadingDigitsOfDigitsThen(NatToString(hours), after);
    DecimalValueOfNatToString(hours);
    assert text[|NatToString(hours)|..] == after;
  }

  /** The minutes part after " hours" reads back as the minutes. */
  lemma MinutesReadBack(rest: nat, tail: string)
    requires tail == if rest != 0 then " " + NatToString(rest) + " minutes" else ""
    ensures (if |" hours" + tail| > 7 then ToI((" hours" + tail)[7..]) else 0) == rest
  {
    if rest != 0 {
      assert (" hours" + tail)[7..] == NatToString(rest) + " minutes";
      ToIOfNatToString(rest, " minutes");
    }
  }

  /** The two shapes of the text: 120 minutes and 130 minutes. */
  lemma FormatTimeSatExamples()
    ensures FormatTimeSat(120) == "2 hours"
    ensures FormatTimeSat(130) == "2 hours 10 minutes"
  {
    assert 120 / 60 == 2 && 120 % 60 == 0 && 130 / 60 == 2 && 130 % 60 == 10;
    assert IntToString(2) == "2" by {
      assert NatToString(2) == [DigitChar(2)] == "2";
    }
    assert NatToString(10) == "10" by {
      assert NatToString(1) == [DigitChar(1)] == "1";
      assert NatToString(10) == NatToString(1) + [DigitChar(0)];
    }
  }

  // ---------------------------------------------------------------------
  // Day statistics

  /** `sat_on_date?` */
  predicate SatOnDate(j: Journal, table: seq<Sit>, d: Date) {
    OnDate(OwnSits(j, table), d) != []
  }

  /** `has_sat?` and `sat_on_date?` ask whether some shared entry of the
      owner exists, at all or on that day. */
  lemma SatPredicatesFindSharedEntries(j: Journal, table: seq<Sit>, d: Date)
    ensures HasSat(j, table) <==> exists s :: s in table && s.userId == j.owner.id && !s.isPrivate
    ensures SatOnDate(j, table, d) <==>
      exists s :: s in table && s.userId == j.owner.id && !s.isPrivate && s.createdAt.date == d
    ensures SatOnDate(j, table, d) ==> HasSat(j, table)
  {
    var own := OwnSits(j, table);
    if HasSat(j, table) {
      assert own[0] in own;
    }
    if SatOnDate(j, table, d) {
      var onDay := OnDate(own, d);
      assert onDay[0] in onDay;
    }
  }

  /** The shared minutes of one day. */
  function MinutesOn(j: Journal, table: seq<Sit>, d: Date): int {
    SumDurations(OnDate(OwnSits(j, table), d))
  }

  /** `time_sat_on_date`: adds up the durations of the day's shared entries. */
  method TimeSatOnDate(j: Journal, table: seq<Sit>, d: Date) returns (total: int)
    ensures total == MinutesOn(j, table, d)
  {
    var rows := OnDate(OwnSits(j, table), d);
    total := 0;
    for i := 0 to |rows|
      invariant total == SumDurations(rows[..i])
    {
      assert rows[..i + 1][..i] == rows[..i];
      total := total + rows[i].duration;
    }
    assert rows[..|rows|] == rows;
  }

  /** `sat_for_x_on_date?`: false without a sit that day, else whether the
      day's minutes reach `minutes`. */
  method SatForXOnDate(j: Journal, table: seq<Sit>, minutes: int, d: Date) returns (r: bool)
    ensures r <==> SatOnDate(j, table, d) && MinutesOn(j, table, d) >= minutes
  {
    if OnDate(OwnSits(j, table), d) != [] {
      var total := TimeSatOnDate(j, table, d);
      r := total >= minutes;
    } else {
      r := false;
    }
  }

  /** The calendar days the rows fall on. */
  function DaySet(rows: seq<Sit>): set<Date> {
    set s | s in rows :: s.createdAt.date
  }

  /** `days_sat_in_date_range`: the number of distinct days among the
      range's shared entries, which the database hands over newest first. */
  method DaysSatInDateRange(j: Journal, table: seq<Sit>, start: Date, end: Date, rows: seq<Sit>) returns (total: nat)
    requires multiset(rows) == multiset(InRange(OwnSits(j, table), start, end))
    requires NewestFirst(rows)
    ensures total == |DaySet(InRange(OwnSits(j, table), start, end))|
  {
    total := CountDayChanges(rows);
    SameDays(rows, InRange(OwnSits(j, table), start, end));
  }

  /** The loop of `days_sat_in_date_range`: over newest-first entries, count
      one whenever an entry's day differs from the previous entry's. */
  method CountDayChanges(rows: seq<Sit>) returns (total: nat)
    requires NewestFirst(rows)
    ensures total == |DaySet(rows)|
  {
    var last: Option<Date> := None;
    total := 0;
    for i := 0 to |rows|
      invariant total == |DaySet(rows[..i])|
      invariant i == 0 <==> last.None?
      invariant i > 0 ==> last == Some(rows[i - 1].createdAt.date)
    {
      var d := rows[i].createdAt.date;
      CountDayStep(rows, i);
      if last != Some(d) {
        total := total + 1;
      }
      last := Some(d);
    }
    assert rows[..|rows|] == rows;
  }

  /** One entry of the count: a day change adds a new day, a repeat none. */
  lemma CountDayStep(rows: seq<Sit>, i: nat)
    requires NewestFirst(rows) && i < |rows|
    ensures |DaySet(rows[..i + 1])| == |DaySet(rows[..i])| +
      (if i == 0 || rows[i].createdAt.date != rows[i - 1].createdAt.date then 1 else 0)
  {
    var d := rows[i].createdAt.date;
    DaySetExtend(rows, i);
    if i == 0 || d != rows[i - 1].createdAt.date {
      NewDayIsNew(rows, i);
      DaySetGrows(rows[..i], d);
    } else {
      SameDaySeen(rows, i);
    }
  }

  lemma DaySetExtend(rows: seq<Sit>, i: nat)
    requires i < |rows|
    ensures DaySet(rows[..i + 1]) == DaySet(rows[..i]) + {rows[i].createdAt.date}
  {
    assert rows[..i + 1] == rows[..i] + [rows[i]];
  }

  lemma DaySetGrows(rows: seq<Sit>, d: Date)
    requires d !in DaySet(rows)
    ensures |DaySet(rows) + {d}| == |DaySet(rows)| + 1
  {
  }

  lemma SameDaySeen(rows: seq<Sit>, i: nat)
    requires 0 < i < |rows| && rows[i].createdAt.date == rows[i - 1].createdAt.date
    ensures DaySet(rows[..i]) + {rows[i].createdAt.date} == DaySet(rows[..i])
  {
    assert rows[i - 1] in rows[..i];
  }

  /** In newest-first order the entries of one day are adjacent, so an entry
      whose day differs from the one before opens a day not seen so far. */
  lemma NewDayIsNew(rows: seq<Sit>, i: nat)
    requires NewestFirst(rows) && i < |rows|
    requires i == 0 || rows[i].createdAt.date != rows[i - 1].createdAt.date
    ensures rows[i].createdAt.date !in DaySet(rows[..i])
  {
    var d := rows[i].createdAt.date;
    forall k | 0 <= k < i ensures rows[k].createdAt.date != d {
      assert StampAtMost(rows[i].createdAt, rows[i - 1].createdAt);
      assert DateBefore(d, rows[i - 1].createdAt.date);
      if k < i - 1 {
        assert StampAtMost(rows[i - 1].createdAt, rows[k].createdAt);
        DateBeforeThenAtMost(d, rows[i - 1].createdAt.date, rows[k].createdAt.date);
      }
    }
    assert forall s :: s in rows[..i] ==> s.createdAt.date != d;
  }

  lemma DateBeforeThenAtMost(a: Date, b: Date, c: Date)
    requires DateBefore(a, b) && DateAtMost(b, c)
    ensures DateBefore(a, c) && a != c
  {
  }

  lemma SameDays(a: seq<Sit>, b: seq<Sit>)
    requires multiset(a) == multiset(b)
    ensures DaySet(a) == DaySet(b)
  {
    assert forall s :: s in a <==> s in multiset(a);
    assert forall s :: s in b <==> s in multiset(b);
  }

  /** Counting days never exceeds counting entries, and no entries means no
      days. */
  lemma {:induction false} DaySetBound(rows: seq<Sit>)
    ensures |DaySet(rows)| <= |rows|
    ensures rows == [] <==> DaySet(rows) == {}
  {
    if rows != [] {
      var init := rows[..|rows| - 1];
      DaySetBound(init);
      assert DaySet(rows) == DaySet(init) + {rows[|rows| - 1].createdAt.date} by {
        assert rows == init + [rows[|rows| - 1]];
      }
      assert rows[0] in rows;
    }
  }

  /** The days whose summed minutes reach `minutes`. */
  function DaysWithAtLeast(rows: seq<Sit>, minutes: int): set<Date> {
    set d | d in DaySet(rows) && SumDurations(OnDate(rows, d)) >= minutes
  }

  /** The inner loop of `days_sat_for_min_x_minutes_in_date_range`: the
      minutes of the entries on day `d`. */
  method DayMinutes(rows: seq<Sit>, d: Date) returns (totalTime: int)
    ensures totalTime == SumDurations(OnDate(rows, d))
  {
    totalTime := 0;
    for i := 0 to |rows|
      invariant totalTime == SumDurations(OnDate(rows[..i], d))
    {
      assert rows[..i + 1][..i] == rows[..i];
      if rows[i].createdAt.date == d {
        totalTime := totalTime + rows[i].duration;
      }
    }
    assert rows[..|rows|] == rows;
  }

  /** The days among `days` whose minutes reach `minutes`. */
  function Qualifying(rows: seq<Sit>, days: seq<Date>, minutes: int): set<Date> {
    set d | d in days && SumDurations(OnDate(rows, d)) >= minutes
  }

  lemma QualifyingStep(rows: seq<Sit>, days: seq<Date>, k: nat, minutes: int)
    requires NoDup(days) && k < |days|
    ensures SumDurations(OnDate(rows, days[k])) >= minutes ==>
      |Qualifying(rows, days[..k + 1], minutes)| == |Qualifying(rows, days[..k], minutes)| + 1
    ensures SumDurations(OnDate(rows, days[k])) < minutes ==>
      Qualifying(rows, days[..k + 1], minutes) == Qualifying(rows, days[..k], minutes)
  {
    assert days[..k + 1] == days[..k] + [days[k]];
    assert days[k] !in days[..k];
    if SumDurations(OnDate(rows, days[k])) >= minutes {
      assert Qualifying(rows, days[..k + 1], minutes) == Qualifying(rows, days[..k], minutes) + {days[k]};
    }
  }

  /** `days_sat_for_min_x_minutes_in_date_range`: the distinct days of the
      range (`uniq!`), each counted when its entries add up to `minutes`. */
  method DaysSatForMinXMinutes(j: Journal, table: seq<Sit>, minutes: int, start: Date, end: Date, rows: seq<Sit>)
    returns (totalDays: nat)
    requires multiset(rows) == multiset(InRange(OwnSits(j, table), start, end))
    ensures totalDays == |DaysWithAtLeast(rows, minutes)|
  {
    var allDates: seq<Date> := [];
    for i := 0 to |rows|
      invariant |allDates| == i
      invariant forall k :: 0 <= k < i ==> allDates[k] == rows[k].createdAt.date
    {
      allDates := allDates + [rows[i].createdAt.date];
    }
    var days := Uniq(allDates);
    totalDays := 0;
    for k := 0 to |days|
      invariant totalDays == |Qualifying(rows, days[..k], minutes)|
    {
      var totalTime := DayMinutes(rows, days[k]);
      QualifyingStep(rows, days, k, minutes);
      if totalTime >= minutes {
        totalDays := totalDays + 1;
      }
    }
    assert days[..|days|] == days;
    QualifyingOverDaysSat(rows, allDates, days, minutes);
  }

  /** Over the distinct dates of the rows, the qualifying days are the days
      sat that reach the threshold. */
  lemma QualifyingOverDaysSat(rows: seq<Sit>, allDates: seq<Date>, days: seq<Date>, minutes: int)
    requires |allDates| == |rows|
    requires forall k :: 0 <= k < |rows| ==> allDates[k] == rows[k].createdAt.date
    requires forall d :: d in days <==> d in allDates
    ensures Qualifying(rows, days, minutes) == DaysWithAtLeast(rows, minutes)
  {
    forall d | d in DaySet(rows) ensures d in allDates {
      var s :| s in rows && s.createdAt.date == d;
      var i :| 0 <= i < |rows| && rows[i] == s;
      assert allDates[i] == d;
    }
  }

  /** A day that reaches the threshold is a day sat, so this count is never
      above `days_sat_in_date_range` over the same entries. */
  lemma AtLeastDaysWithinDaysSat(rows: seq<Sit>, minutes: int)
    ensures DaysWithAtLeast(rows, minutes) <= DaySet(rows)
    ensures |DaysWithAtLeast(rows, minutes)| <= |DaySet(rows)|
  {
    var big := DaySet(rows);
    var small := DaysWithAtLeast(rows, minutes);
    assert big == small + (big - small);
  }

  /** An entry of `minutes` on day `d`, `second` seconds into the day. */
  function EntryAt(d: Date, second: int, minutes: int): Sit {
    Sit(0, 1, Stamp(d, second), 0, "", minutes, "", false, [])
  }

  /** Two twenty-minute sits on a day make 40 minutes; one sit of 30 reaches
      30 minutes but not 31. */
  lemma DayMinutesExamples(d: Date)
    ensures SumDurations(OnDate([EntryAt(d, 0, 20), EntryAt(d, 1, 20)], d)) == 40
    ensures DaysWithAtLeast([EntryAt(d, 0, 30)], 30) == {d}
    ensures DaysWithAtLeast([EntryAt(d, 0, 30)], 31) == {}
  {
    var two := [EntryAt(d, 0, 20), EntryAt(d, 1, 20)];
    assert two[..1] == [EntryAt(d, 0, 20)];
    assert OnDate(two, d) == two;
    assert [EntryAt(d, 0, 20)][..0] == [];
    assert SumDurations(two) == SumDurations(two[..1]) + 20 == 40;
    assert two[0] in two;
    var one := [EntryAt(d, 0, 30)];
    assert OnDate(one, d) == one;
    assert one[0] in one;
    assert DaySet(one) == {d};
  }

  /** Two sits today, a second apart, of 30 minutes each count as one day
      of at least 30 minutes. */
  lemma SameDayCountsOnce(d: Date)
    ensures |DaysWithAtLeast([EntryAt(d, 0, 30), EntryAt(d, 1, 30)], 30)| == 1
  {
    var rows := [EntryAt(d, 0, 30), EntryAt(d, 1, 30)];
    assert rows[0] in rows;
    assert DaySet(rows) == {d};
    assert rows[..1] == [rows[0]];
    assert OnDate(rows, d) == rows;
    assert [rows[0]][..0] == [];
    assert SumDurations(rows) == SumDurations(rows[..1]) + 30 == 60;
    assert DaysWithAtLeast(rows, 30) == {d};
  }

  /** Sits yesterday and twice the day before make two days sat. */
  lemma TwoDaysFromThreeSits(yesterday: Date)
    ensures var before := PrevDate(yesterday);
      |DaySet([EntryAt(yesterday, 0, 20), EntryAt(before, 1, 20), EntryAt(before, 0, 20)])| == 2
  {
    var before := PrevDate(yesterday);
    var rows := [EntryAt(yesterday, 0, 20), EntryAt(before, 1, 20), EntryAt(before, 0, 20)];
    assert rows[0] in rows && rows[1] in rows;
    assert DaySet(rows) == {yesterday, before};
    assert DateBefore(before, yesterday);
  }

  // ---------------------------------------------------------------------
  // Months

  /** How many entries of month `ym` this viewer's `sits_by_month` holds. */
  function MonthCount(j: Journal, table: seq<Sit>, ym: YearMonth): nat {
    |InMonth(ViewedSits(j, table), ym)|
  }

  /** The month index of the first sit this viewer sees. */
  function FirstMonthIndex(j: Journal, table: seq<Sit>): int
    requires FirstSit(j, table).Some?
  {
    MonthIndex(MonthOf(FirstSit(j, table).value.createdAt.date))
  }

  /** The `months_sat` hash for months `lo` to `hi`: year to month to count,
      holding exactly the months with at least one entry, each with its
      count, and no year without a month. */
  ghost predicate SparseMonths(dates: map<int, map<int, nat>>, j: Journal, table: seq<Sit>, lo: int, hi: int) {
    && EntriesCounted(dates, j, table, lo, hi)
    && ActiveCovered(dates, j, table, lo, hi)
    && NoEmptyYear(dates)
  }

  ghost predicate EntriesCounted(dates: map<int, map<int, nat>>, j: Journal, table: seq<Sit>, lo: int, hi: int) {
    forall y, m :: y in dates && m in dates[y] ==>
      && ValidMonth(YearMonth(y, m))
      && lo <= MonthIndex(YearMonth(y, m)) <= hi
      && dates[y][m] == MonthCount(j, table, YearMonth(y, m)) > 0
  }

  ghost predicate ActiveCovered(dates: map<int, map<int, nat>>, j: Journal, table: seq<Sit>, lo: int, hi: int) {
    forall k :: lo <= k <= hi && MonthCount(j, table, FromIndex(k)) > 0 ==>
      FromIndex(k).year in dates && FromIndex(k).month in dates[FromIndex(k).year]
  }

  ghost predicate NoEmptyYear(dates: map<int, map<int, nat>>) {
    forall y :: y in dates ==> dates[y] != map[]
  }

  /** `months_sat`: every month from the first sit's to today's, with its
      number of entries, when that number is above 0. None where the source
      fails: no first sit (nil), or a viewer for whom `sits_by_month` is nil
      once there is a month to count. */
  method MonthsSat(j: Journal, table: seq<Sit>, social: Social, today: Date) returns (r: Option<map<int, map<int, nat>>>)
    ensures FirstSit(j, table).None? ==> r.None?
    ensures FirstSit(j, table).Some? ==>
      var lo, hi := FirstMonthIndex(j, table), MonthIndex(MonthOf(today));
      && (r.None? <==> lo <= hi && !MayBrowse(j, social))
      && (r.Some? ==> SparseMonths(r.value, j, table, lo, hi))
  {
    var first := FirstSit(j, table);
    if first.None? {
      return None;
    }
    var lo := MonthIndex(MonthOf(first.value.createdAt.date));
    var hi := MonthIndex(MonthOf(today));
    var dates: map<int, map<int, nat>> := map[];
    var k := lo;
    while k <= hi
      invariant lo <= k && (k <= hi + 1 || k == lo)
      invariant k > lo ==> MayBrowse(j, social)
      invariant SparseMonths(dates, j, table, lo, k - 1)
    {
      var month := SitsByMonth(j, table, social, FromIndex(k));
      if month.None? {
        return None;
      }
      var count := |month.value|;
      assert count == MonthCount(j, table, FromIndex(k));
      if count > 0 {
        var ym := FromIndex(k);
        var inner := if ym.year in dates then dates[ym.year] else map[];
        AddMonth(dates, j, table, lo, k, count);
        dates := dates[ym.year := inner[ym.month := count]];
      } else {
        SkipMonth(dates, j, table, lo, k);
      }
      k := k + 1;
    }
    return Some(dates);
  }

  /** A month without entries extends the table from `lo..k-1` to `lo..k`
      unchanged. */
  lemma SkipMonth(dates: map<int, map<int, nat>>, j: Journal, table: seq<Sit>, lo: int, k: int)
    requires SparseMonths(dates, j, table, lo, k - 1)
    requires MonthCount(j, table, FromIndex(k)) == 0
    ensures SparseMonths(dates, j, table, lo, k)
  {
  }

  /** The hash after recording `count` for month `ym`. */
  function Record(dates: map<int, map<int, nat>>, ym: YearMonth, count: nat): map<int, map<int, nat>> {
    dates[ym.year := (if ym.year in dates then dates[ym.year] else map[])[ym.month := count]]
  }

  /** Recording month `k` with its positive count extends the table from
      `lo..k-1` to `lo..k`. */
  lemma AddMonth(before: map<int, map<int, nat>>, j: Journal, table: seq<Sit>, lo: int, k: int, count: nat)
    requires lo <= k
    requires SparseMonths(before, j, table, lo, k - 1)
    requires count == MonthCount(j, table, FromIndex(k)) > 0
    ensures SparseMonths(Record(before, FromIndex(k), count), j, table, lo, k)
  {
    AddMonthCounted(before, j, table, lo, k, count);
    AddMonthCovers(before, j, table, lo, k, count);
  }

  lemma AddMonthCounted(before: map<int, map<int, nat>>, j: Journal, table: seq<Sit>, lo: int, k: int, count: nat)
    requires lo <= k
    requires EntriesCounted(before, j, table, lo, k - 1)
    requires count == MonthCount(j, table, FromIndex(k)) > 0
    ensures EntriesCounted(Record(before, FromIndex(k), count), j, table, lo, k)
  {
    var ym := FromIndex(k);
    var after := Record(before, ym, count);
    forall y, m | y in after && m in after[y]
      ensures ValidMonth(YearMonth(y, m)) && lo <= MonthIndex(YearMonth(y, m)) <= k
      ensures after[y][m] == MonthCount(j, table, YearMonth(y, m)) > 0
    {
      if y == ym.year && m == ym.month {
        assert YearMonth(y, m) == ym;
      } else {
        assert y in before && m in before[y] && after[y][m] == before[y][m];
      }
    }
  }

  lemma AddMonthCovers(before: map<int, map<int, nat>>, j: Journal, table: seq<Sit>, lo: int, k: int, count: nat)
    requires ActiveCovered(before, j, table, lo, k - 1)
    requires NoEmptyYear(before)
    ensures ActiveCovered(Record(before, FromIndex(k), count), j, table, lo, k)
    ensures NoEmptyYear(Record(before, FromIndex(k), count))
  {
    var ym := FromIndex(k);
    var after := Record(before, ym, count);
    assert ym.month in after[ym.year];
    forall k' | lo <= k' <= k && MonthCount(j, table, FromIndex(k')) > 0
      ensures FromIndex(k').year in after && FromIndex(k').month in after[FromIndex(k').year]
    {
      if k' < k {
        var other := FromIndex(k');
        assert other.year in before && other.month in before[other.year];
      }
    }
  }

  /** The `n` months from `top` downwards, one month apart. */
  function MonthsBack(top: YearMonth, n: nat): (r: seq<YearMonth>)
    ensures |r| == n
    ensures forall i :: 0 <= i < n ==> ValidMonth(r[i]) && MonthIndex(r[i]) == MonthIndex(top) - i
  {
    seq(n, i requires 0 <= i < n => FromIndex(MonthIndex(top) - i))
  }

  /** The month list of `dropdown_months` starts at the current month, steps
      down one month at a time, holds no month twice, and ends with the
      first sit's month. */
  lemma MonthListShape(now: YearMonth, first: YearMonth)
    requires ValidMonth(now) && ValidMonth(first) && MonthIndex(first) <= MonthIndex(now)
    ensures var list := MonthsBack(now, MonthIndex(now) - MonthIndex(first) + 1);
      && list[0] == now
      && list[|list| - 1] == first
      && (forall i :: 0 <= i < |list| - 1 ==> MonthIndex(list[i + 1]) == MonthIndex(list[i]) - 1)
      && NoDup(list)
  {
    FromIndexOfMonthIndex(now);
    FromIndexOfMonthIndex(first);
  }

  datatype Entry = YearTotal(year: int, total: nat) | MonthTotal(month: int, total: nat)

  /** What `dropdown_months` yields: false without a shared entry; no answer
      at all when its month loop cannot reach the first sit's month; a
      failure when `sits_by_month` is nil for this viewer; else the totals. */
  datatype Dropdown = NotSat | NeverEnds | NoAccess | Entries(entries: seq<Entry>)

  /** The `dates_totals` built from `months`, `pointer` being the year of the
      month handled before: a year header when the year changes and the
      year has shared entries, then the month when it has entries. */
  function Totals(j: Journal, table: seq<Sit>, months: seq<YearMonth>, pointer: int): seq<Entry> {
    if months == [] then []
    else MonthEntry(j, table, months[0], pointer) + Totals(j, table, months[1..], months[0].year)
  }

  /** The entries one month of the list contributes: its year's total when
      the year changes and has entries, then its own total when non-zero. */
  function MonthEntry(j: Journal, table: seq<Sit>, ym: YearMonth, pointer: int): seq<Entry> {
    var yearTotal := |SitsByYear(j, table, ym.year)|;
    var monthTotal := MonthCount(j, table, ym);
    (if pointer != ym.year && yearTotal != 0 then [YearTotal(ym.year, yearTotal)] else [])
    + (if monthTotal != 0 then [MonthTotal(ym.month, monthTotal)] else [])
  }

  lemma HasSatMeansFirstSit(j: Journal, table: seq<Sit>)
    requires HasSat(j, table)
    ensures FirstSit(j, table).Some?
  {
    assert OwnSits(j, table)[0] in ViewedSits(j, table);
  }

  function DropdownOf(j: Journal, table: seq<Sit>, social: Social, now: YearMonth): Dropdown
    requires ValidMonth(now)
  {
    if !HasSat(j, table) then NotSat
    else
      HasSatMeansFirstSit(j, table);
      var fm := MonthOf(FirstSit(j, table).value.createdAt.date);
      if !ValidMonth(fm) || MonthIndex(now) < MonthIndex(fm) then NeverEnds
      else if !MayBrowse(j, social) then NoAccess
      else Entries(Totals(j, table, MonthsBack(now, MonthIndex(now) - MonthIndex(fm) + 1), 2000))
  }

  /** `dropdown_months` for the current month `now`: counts down from `now`
      to the first sit's month, then totals each year and month with
      entries. */
  method DropdownMonths(j: Journal, table: seq<Sit>, social: Social, now: YearMonth) returns (r: Dropdown)
    requires ValidMonth(now)
    ensures r == DropdownOf(j, table, social, now)
  {
    if !HasSat(j, table) {
      return NotSat;
    }
    HasSatMeansFirstSit(j, table);
    var fm := MonthOf(FirstSit(j, table).value.createdAt.date);
    if !ValidMonth(fm) || MonthIndex(now) < MonthIndex(fm) {
      return NeverEnds;
    }
    var dates := MonthsDownTo(now, fm);
    if !MayBrowse(j, social) {
      return NoAccess;
    }
    var entries := MonthTotals(j, table, social, dates);
    return Entries(entries);
  }

  /** The first loop of `dropdown_months`: from `now` down to `first`, with
      the source's month-0 step into December of the year before. */
  method MonthsDownTo(now: YearMonth, first: YearMonth) returns (dates: seq<YearMonth>)
    requires ValidMonth(now) && ValidMonth(first) && MonthIndex(first) <= MonthIndex(now)
    ensures dates == MonthsBack(now, MonthIndex(now) - MonthIndex(first) + 1)
  {
    var year, month := now.year, now.month;
    dates := [];
    while YearMonth(year, month) != first
      invariant 0 <= month <= 12
      invariant MonthIndex(first) <= year * 12 + month - 1 <= MonthIndex(now)
      invariant dates == MonthsBack(now, MonthIndex(now) - (year * 12 + month - 1))
      decreases 2 * (year * 12 + month - 1 - MonthIndex(first)) + (if month == 0 then 1 else 0)
    {
      if month != 0 {
        if year * 12 + month - 1 == MonthIndex(first) {
          MonthIndexInjective(YearMonth(year, month), first);
        }
        FromIndexOfMonthIndex(YearMonth(year, month));
        dates := dates + [YearMonth(year, month)];
        month := month - 1;
      } else {
        year := year - 1;
        month := 12;
      }
    }
    FromIndexOfMonthIndex(first);
    dates := dates + [first];
  }

  /** The second loop of `dropdown_months`, `pointer` starting at 2000. */
  method MonthTotals(j: Journal, table: seq<Sit>, social: Social, dates: seq<YearMonth>) returns (entries: seq<Entry>)
    requires MayBrowse(j, social)
    ensures entries == Totals(j, table, dates, 2000)
  {
    var pointer := 2000;
    entries := [];
    for i := 0 to |dates|
      invariant pointer == if i == 0 then 2000 else dates[i - 1].year
      invariant entries + Totals(j, table, dates[i..], pointer) == Totals(j, table, dates, 2000)
    {
      var ym := dates[i];
      var step := MonthStep(j, table, social, ym, pointer);
      TotalsStep(j, table, dates, i, pointer);
      ghost var rest := Totals(j, table, dates[i + 1..], ym.year);
      assert (entries + step) + rest == entries + (step + rest);
      entries := entries + step;
      pointer := ym.year;
    }
  }

  /** One pass of the second loop: the year's total when `pointer` moves to a
      new year with entries, then the month's total when non-zero. */
  method MonthStep(j: Journal, table: seq<Sit>, social: Social, ym: YearMonth, pointer: int) returns (step: seq<Entry>)
    requires MayBrowse(j, social)
    ensures step == MonthEntry(j, table, ym, pointer)
  {
    step := [];
    if pointer != ym.year {
      var yearTotal := |SitsByYear(j, table, ym.year)|;
      if yearTotal != 0 {
        step := [YearTotal(ym.year, yearTotal)];
      }
    }
    var monthTotal := |SitsByMonth(j, table, social, ym).value|;
    if monthTotal != 0 {
      step := step + [MonthTotal(ym.month, monthTotal)];
    }
  }

  lemma TotalsStep(j: Journal, table: seq<Sit>, dates: seq<YearMonth>, i: nat, pointer: int)
    requires i < |dates|
    ensures Totals(j, table, dates[i..], pointer)
      == MonthEntry(j, table, dates[i], pointer) + Totals(j, table, dates[i + 1..], dates[i].year)
  {
    assert dates[i..][0] == dates[i] && dates[i..][1..] == dates[i + 1..];
  }

  /** Every total `dropdown_months` lists is above 0. */
  lemma {:induction false} TotalsArePositive(j: Journal, table: seq<Sit>, months: seq<YearMonth>, pointer: int)
    ensures forall e :: e in Totals(j, table, months, pointer) ==> e.total > 0
    decreases |months|
  {
    if months != [] {
      TotalsArePositive(j, table, months[1..], months[0].year);
    }
  }

  /** The month entries of a list of entries, in order. */
  function MonthEntries(es: seq<Entry>): seq<Entry> {
    if es == [] then []
    else (if es[0].MonthTotal? then [es[0]] else []) + MonthEntries(es[1..])
  }

  lemma {:induction false} MonthEntriesAppend(a: seq<Entry>, b: seq<Entry>)
    ensures MonthEntries(a + b) == MonthEntries(a) + MonthEntries(b)
    decreases |a|
  {
    if a != [] {
      assert (a + b)[1..] == a[1..] + b;
      MonthEntriesAppend(a[1..], b);
    } else {
      assert a + b == b;
    }
  }

  /** The months of `months` with at least one entry, with their counts. */
  function ActiveMonths(j: Journal, table: seq<Sit>, months: seq<YearMonth>): seq<Entry> {
    if months == [] then []
    else
      var c := MonthCount(j, table, months[0]);
      (if c != 0 then [MonthTotal(months[0].month, c)] else []) + ActiveMonths(j, table, months[1..])
  }

  /** Leaving the year headers aside, the totals list exactly the months
      with entries, in list order, each with its count. */
  lemma {:induction false} MonthEntriesAreActiveMonths(j: Journal, table: seq<Sit>, months: seq<YearMonth>, pointer: int)
    ensures MonthEntries(Totals(j, table, months, pointer)) == ActiveMonths(j, table, months)
    decreases |months|
  {
    if months != [] {
      var ym := months[0];
      var yearTotal := |SitsByYear(j, table, ym.year)|;
      var monthTotal := MonthCount(j, table, ym);
      var yearPart := if pointer != ym.year && yearTotal != 0 then [YearTotal(ym.year, yearTotal)] else [];
      var monthPart := if monthTotal != 0 then [MonthTotal(ym.month, monthTotal)] else [];
      var rest := Totals(j, table, months[1..], ym.year);
      assert Totals(j, table, months, pointer) == yearPart + monthPart + rest;
      MonthEntriesAppend(yearPart + monthPart, rest);
      MonthEntriesAppend(yearPart, monthPart);
      assert MonthEntries(yearPart) == [];
      assert MonthEntries(monthPart) == monthPart;
      MonthEntriesAreActiveMonths(j, table, months[1..], ym.year);
    }
  }

  // ---------------------------------------------------------------------
  // Previous and next month

  datatype Links = Links(prev: Option<YearMonth>, next: Option<YearMonth>, firstMonth: Option<YearMonth>)

  /** Array#index: the first position of `x`. */
  function IndexOf(list: seq<YearMonth>, x: YearMonth): (r: Option<nat>)
    ensures r.None? <==> x !in list
    ensures r.Some? ==> r.value < |list| && list[r.value] == x && x !in list[..r.value]
  {
    if list == [] then None
    else if list[0] == x then Some(0)
    else
      match IndexOf(list[1..], x)
      case None => None
      case Some(i) =>
        assert list[..i + 1] == [list[0]] + list[1..][..i];
        Some(i + 1)
  }

  /** The rule of `journal_next_prev_links`: when the user has sat and the
      current month is listed, the previous link goes one place further down
      the list and the next link one place up (none past either end);
      otherwise the first listed month is offered. */
  function NextPrevLinks(list: seq<YearMonth>, current: YearMonth, hasSat: bool): (r: Links)
    ensures hasSat && current in list ==> r.firstMonth.None?
    ensures !(hasSat && current in list) ==> r.prev.None? && r.next.None?
    ensures !(hasSat && current in list) && list != [] ==> r.firstMonth == Some(list[0])
  {
    var index := if hasSat then IndexOf(list, current) else None;
    if index.Some? then
      var i := index.value;
      Links(if i + 1 < |list| then Some(list[i + 1]) else None, if i != 0 then Some(list[i - 1]) else None, None)
    else
      Links(None, None, if list != [] then Some(list[0]) else None)
  }

  /** On the dropdown's month list, "previous" is the month before and
      "next" the month after, and they stop at the first sit's month and
      the current month. */
  lemma NavigationOnMonthList(now: YearMonth, n: nat, current: YearMonth)
    requires ValidMonth(now) && current in MonthsBack(now, n)
    ensures var list := MonthsBack(now, n);
      var r := NextPrevLinks(list, current, true);
      && (r.prev.Some? <==> current != list[n - 1])
      && (r.prev.Some? ==> MonthIndex(r.prev.value) == MonthIndex(current) - 1)
      && (r.next.Some? <==> current != list[0])
      && (r.next.Some? ==> MonthIndex(r.next.value) == MonthIndex(current) + 1)
  {
    var list := MonthsBack(now, n);
    var i := IndexOf(list, current).value;
    assert forall a, b :: 0 <= a < n && 0 <= b < n && list[a] == list[b] ==> a == b;
  }
}
