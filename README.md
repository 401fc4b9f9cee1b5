# OpenSit journal, privacy and streak core in Dafny

OpenSit is a meditation-journal web application. Each user writes entries
("sits": timed meditations, diary entries and articles) into a journal. The
user chooses an account-wide privacy tier (public, following,
selected_users or private), and that tier decides who may read the
entries. This project models the part of the application that holds those
rules and the statistics built on them:

- `Sits` (app/models/sit.rb) covers:
  - per-entry visibility;
  - the validations;
  - the derived title;
  - body clean-up;
  - the previous/next entry in the owner's journal;
  - the commenters;
  - the tag-list parser.
- `Users` (app/models/user.rb) covers:
  - the privacy-tier setter, which re-flags the owner's sits;
  - `can_view_content_of` and the `viewable_users` query;
  - the selected-users whitelist;
  - follow relationships;
  - the display name and location.
- `Journals` (app/models/journal.rb) covers a journal as one viewer sees it:
  - the latest and first entry;
  - sums and counts by day, month and year;
  - the `months_sat` hash;
  - the `dropdown_months` list;
  - the rule for the previous/next month links.
- `Streaks` (app/models/streak.rb) covers the count of consecutive days up to
  today on which the user sat.

Supporting modules:

- `Schema` holds the three tables the core reads and writes: sits,
  relationships and authorised_users. It also holds the default scope that
  hides private sits (`where.not(private: true)`) and the effect of
  `unscoped`.
- `Calendar` holds proleptic Gregorian dates, timestamps split into
  (date, second of day), day numbers for `Date#-`, and months.
- `Text` holds the Ruby string operations the core relies on:
  - `to_i`;
  - `gsub` with a literal pattern;
  - `split` on one character;
  - `strip`;
  - `blank?`;
  - `join`.
- `Lists` holds `Array#uniq` and `Array#delete`.

Functions express the state-free logic. Where the source loops, the model
is a method with a loop. Each such method is proved equal to a
specification function, and the properties are lemmas about that function.

Objects the source updates in place are classes:

- a `User` has a mutable `privacySetting`;
- a `Database` holds the tables that `update_all`, `delete_all` and
  `create!` change.

Interpretations made where the source is incomplete:

- The undefined `sits` in journal.rb is the owner's default-scoped sits
  (`@user.sits`). In streak.rb, `sits` is `User#sits`, since `Streak` is
  included into `User` (app/models/user.rb:4).
- `@user.sits_by_month` and `@user.sits_by_year` in `dropdown_months` are
  the journal's own methods.
- `oldest_first`, which sit.rb calls but does not define, is
  `ORDER BY created_at ASC`.
- The bind-less `.where('user_id in (?)')` in `sits_by_month` is taken as
  adding no condition.
- The undefined `year`, `month` and `user` in `journal_next_prev_links`
  become parameters: the current month and whether the user has sat.
- The query feeding `streak` is `sits.newest_first` under the default
  scope, as the code is written, so the owner's private sits do not count.
- Dates, times and "today" are parameters. The source's time-zone
  conversions are not modelled. Comparing `strftime("%d %B %Y")` strings is
  comparing calendar dates.
- Rows the database returns in a given order are method parameters. A
  `requires` ties them to the table by `multiset` and, where the order
  matters, by `NewestFirst`. Rows with equal `created_at` may come in any
  order.

## Model

| member | source | states |
|---|---|---|
| Schema.SitsOf | app/models/sit.rb:21 | a row is in `user.sits` exactly when it belongs to the owner and, unless the query is unscoped, is not private |
| Schema.DefaultScopeIsSubmultiset | app/models/sit.rb:21 | everything the default scope returns is also returned unscoped |
| Calendar.DayNumberOfPrevDate | app/models/streak.rb:15 | `Date#-` between a valid date and the day before it is exactly 1 |
| Users.ParseTier | app/models/user.rb:116 | an accepted value reads back as its tier's name |
| Users.ParseTierAcceptsExactlyTheNames | app/models/user.rb:116 | exactly the four tier names are accepted, and each parses to its own tier |
| Users.User.SetPrivacySetting | app/models/user.rb:115-129 | an unknown value raises and changes neither the tier nor the sits; otherwise the new tier is stored; going private leaves no sit visible under the default scope; leaving private makes every sit of the owner visible again; that clear reaches the owner's sits only, the corrected half of the first finding |
| Users.ToPrivateHidesAllOwnerSits | app/models/user.rb:122-123 | going private flags every sit of the owner and only those; no default-scoped query sees any of them afterwards |
| Users.FromPrivateShowsAllOwnerSits | app/models/user.rb:119-120 | leaving private clears the flag on every sit of the owner, rows of other users untouched; default and unscoped queries then agree |
| Users.AmongSharedTiersNothingChanges | app/models/user.rb:115-125 | moving among public, following and selected_users leaves the sits table unchanged |
| Users.UnscopedClearReachesOtherUsers | app/models/user.rb:120 | as written, the clear makes another user's private sit public, where the owner-only clear leaves it alone |
| Users.CanViewContentOf | app/models/user.rb:144-150 | oneself always; otherwise public yes, following iff the owner follows the viewer, selected_users iff whitelisted, private no |
| Users.ViewableUsersMatchesCanView | app/models/user.rb:131-137 | the corrected `viewable_users` holds another user exactly when `can_view_content_of` allows the viewer to see that user |
| Users.ViewableUsersAsWrittenAdmitsStaleWhitelist | app/models/user.rb:57-59 | as written, a user with tier following who once whitelisted the viewer is listed, though `can_view_content_of` refuses |
| Users.FollowedIds | app/models/user.rb:16-17 | `followed_user_ids` holds exactly the users this user follows, `following?` (Users.Follows, user.rb:179-181) being the presence of a relationship row from this user |
| Users.FollowerIds | app/models/user.rb:18-21 | `follower_ids` holds exactly the users with a relationship row to this user |
| Users.ViewableAndFollowingUsers | app/models/user.rb:139-142 | on the corrected `viewable_users`: another user is in the feed iff the viewer follows that user and `can_view_content_of` allows the viewer to see that user |
| Users.ViewableAndFollowingUsersAsWritten | app/models/user.rb:139-142 | as written: a user is in the feed iff the viewer follows that user and that user is in the as-written `viewable_users` |
| Users.FeedAsWrittenAddsStaleWhitelist | app/models/user.rb:139-142 | for another user, the as-written feed holds exactly the corrected feed plus the followed users who whitelisted the viewer though `can_view_content_of` refuses |
| Users.FeedAsWrittenListsStaleWhitelist | app/models/user.rb:139-142 | user 1, tier following, who whitelisted user 2 and is followed by user 2 without following back, is in user 2's as-written feed and not in the corrected one |
| Users.MutualFollowingIds | app/models/user.rb:210-212 | a user is in the result iff each of the two follows the other |
| Users.FollowingAnyoneMeansAnotherAccount | app/models/user.rb:193-198 | `following_anyone?` (Users.FollowingAnyone) iff the user follows some account other than OpenSit's (id 97) |
| Users.DisplayName | app/models/user.rb:87-91 | username without a first name, first name without a last name, else "first last"; never blank when the username is not |
| Users.Location | app/models/user.rb:81-85 | "city, country", either one alone, or nil exactly when both are blank |
| Users.NonEmpty | app/models/user.rb:159 | keeps exactly the non-empty form values, each as often as the form sends it |
| Users.NonEmptyAppend | app/models/user.rb:159 | `reject!` keeps the order of the values it keeps |
| Users.RowsNotOf | app/models/user.rb:162 | `authorised_users.delete_all` keeps exactly the rows of other owners |
| Users.User.SetSelectedUsers | app/models/user.rb:158-168 | the owner's whitelist rows are replaced by one row per non-empty value, appended in form order; `selected_users` (Users.User.SelectedUsers, user.rb:171-173) then reads back the ids of those values, each as often, in whatever order the rows come; other owners' rows stay |
| Users.User.SelectedUsers | app/models/user.rb:171-173 | reads each id as often as the owner has a whitelist row for it |
| Users.SelectedOfCounts | app/models/user.rb:171-173 | over rows in any order, each id is read back as often as the owner has a row for it |
| Users.SelectedAfterReplace | app/models/user.rb:158-173 | when the rows come back in the order they were created, writing the whitelist and reading it back gives the ids of the kept values, in form order |
| Users.SelectedAfterReplaceAnyOrder | app/models/user.rb:158-173 | whatever order the database returns the rows in, the read-back holds the ids of the kept values, each as often |
| Sits.Viewable | app/models/sit.rb:153-178 | the owner always; a private entry nobody else; otherwise a private journal (`private_journal?`, user.rb:104-107) no, following iff the owner follows the viewer, selected_users iff whitelisted, a public journal (`public_journal?`, user.rb:109-112) yes; no signed-in viewer sees only public journals |
| Sits.ViewableAgreesWithCanViewContentOf | app/models/sit.rb:160-177 | for a non-private entry and a signed-in viewer, `viewable?` equals `can_view_content_of` on the owner |
| Sits.OwnerAlwaysViews | app/models/sit.rb:154-155 | the owner sees the entry whatever its flag and the owner's tier |
| Sits.Errors | app/models/sit.rb:15-17 | the type-missing, title-blank and duration-missing messages appear exactly under their `if:` conditions |
| Sits.NumericalityErrors | app/models/sit.rb:18 | no message iff the duration is a whole number above 0; never more than one message |
| Sits.ValidIff | app/models/sit.rb:15-18 | an entry is valid iff it has a type, a non-blank title unless it is a timed sit, and a whole positive duration; the body plays no part |
| Sits.FullTitle | app/models/sit.rb:45-61 | a timed sit (`is_sit?`) is titled exactly its duration followed by " minute meditation journal", and the title reads back as the duration; a diary entry's is its title; anything else is "Article: " and the title |
| Sits.CustomStrip | app/models/sit.rb:68-71 | no `<br>` and no `&nbsp;` remain; a body without either is returned unchanged |
| Sits.CustomStripBr | app/models/sit.rb:68-71 | each `<br>` becomes exactly one space: the text before it, free of `<` and `&`, is kept and the text after it is cleaned on its own |
| Sits.CustomStripNbsp | app/models/sit.rb:68-71 | each `&nbsp;` becomes exactly one space, in the same sense |
| Sits.StubIffStripsToNothing | app/models/sit.rb:63-71 | `stub?` holds exactly when cleaning the body leaves nothing |
| Sits.CustomStripIdempotent | app/models/sit.rb:68-71 | cleaning twice is cleaning once |
| Sits.Neighbours | app/models/sit.rb:78-93 | the candidates are exactly the owner's entries with a body, private ones only when the owner is looking |
| Sits.Next | app/models/sit.rb:77-85 | a later candidate with none strictly between, or nil exactly when no candidate is later |
| Sits.Prev | app/models/sit.rb:87-95 | an earlier candidate with none strictly between, or nil exactly when no candidate is earlier |
| Sits.NextThenPrev | app/models/sit.rb:77-95 | stepping to the next entry and back lands on an entry created at the same instant |
| Sits.Commenters | app/models/sit.rb:106-110 | the distinct comment authors in first-comment order without the owner; no id twice; an id is present iff it commented and is not the owner |
| Sits.SetTagList | app/models/sit.rb:129-135 | the entry's tags become the comma-separated fields that are not blank, each stripped |
| Sits.TagNamesAreStripped | app/models/sit.rb:129-135 | every assigned name is stripped and comma-free; it may be empty (see Findings) |
| Sits.NulFieldMakesEmptyTag | app/models/sit.rb:130-134 | a field of white space and NULs that holds a NUL is not blank, so it becomes a tag with an empty name |
| Sits.LoneNulMakesEmptyTag | app/models/sit.rb:130-134 | the field "\0" gives the one tag name "" |
| Sits.NonBlankTagNamesAreClean | app/models/sit.rb:129-135 | with the blank check made after stripping, every name is non-empty, stripped and comma-free |
| Sits.NonBlankTagNamesDropEmpty | app/models/sit.rb:129-135 | the corrected names are the names `tag_list=` assigns, in order, less the empty ones |
| Sits.TagListRoundTrip | app/models/sit.rb:125-135 | assigning what `tag_list` (Sits.TagList) shows gives back the same tags when every name is clean: non-empty, stripped and comma-free, as the corrected assignment makes every name and `tag_list=` every name but the empty one |
| Text.StripProperties | app/models/sit.rb:133 | `strip` keeps a slice of the input; only white space is removed before it and only white space and NULs after it; the slice starts with no white space and ends with neither; it is empty iff the input holds only white space and NULs, so it is empty for every blank input |
| Streaks.Streak | app/models/streak.rb:2-39 | over newest-first sits, `streak` returns the streak of its specification: the walk only when the user sat yesterday, plus today when the user sat today and the walk is positive, else 0 |
| Streaks.WalkSits | app/models/streak.rb:5-24 | the `each` loop over newest-first rows returns the walk of its specification: one-day steps are counted, repeated days skipped, and a larger gap ends the count |
| Streaks.StreakIsRunEndingToday | app/models/streak.rb:2-39 | when no sit is dated after today: the streak is k > 0 exactly when k >= 2, the user sat on each of the k days ending today, and not on the day before them |
| Streaks.StreakIsRun | app/models/streak.rb:2-39 | when no sit is dated after today: the streak is 0 exactly when today or yesterday has no sit; a positive streak counts the days of the unbroken run of days sat that ends today |
| Streaks.FutureSitChangesStreak | app/models/streak.rb:5-21 | as written, with sits today and yesterday, a sit dated two or more days after today makes the streak 0, and one dated tomorrow makes it 3 |
| Streaks.StreakUpToTodayIsRunEndingToday | app/models/streak.rb:2-39 | for any newest-first table, the streak over the sits dated no later than today is k > 0 exactly when k >= 2, the user sat on each of the k days ending today, and not on the day before them |
| Streaks.WalkIsRun | app/models/streak.rb:6-24 | over newest-first dates, the loop counts the days of the unbroken run of days sat below the newest date, and the day below that run has no sit |
| Calendar.DayNumberMonotone | app/models/streak.rb:15 | an earlier valid date has a smaller day number, so `Date#-` follows calendar order |
| Streaks.StreakShape | app/models/streak.rb:27-36 | no sit yesterday means 0; a streak is never 1; a positive streak needs sits today and yesterday |
| Streaks.StreakAtMostSatDays | app/models/streak.rb:12-21 | the streak is at most the number of distinct days sat |
| Streaks.SameDaySitChangesNothing | app/models/streak.rb:13 | another sit next to one on the same day leaves the streak unchanged |
| Streaks.SameDaySitSameDays | app/models/streak.rb:13 | adding a sit next to one on the same day leaves unchanged which days have a sit |
| Streaks.YesterdayAndToday | app/models/streak.rb:2-39 | sits yesterday and today make 2 |
| Streaks.TwoDaysThenToday | app/models/streak.rb:2-39 | sits on the two days before today plus one today make 3, and a second sit today keeps 3 |
| Streaks.ThreeDaysInARow | app/models/streak.rb:2-39 | sits today and on each of the two days before make a streak of 3 |
| Streaks.MissedYesterday | app/models/streak.rb:4 | sits today and the two days before yesterday, but not yesterday, make 0 |
| Journals.OwnSits | app/models/journal.rb:12 | the journal's `sits` are exactly the owner's non-private entries |
| Journals.ViewedSits | app/models/journal.rb:7-31 | the owner's query (`viewing_my_journal?`) sees private entries too; any other viewer's does not |
| Journals.LatestSit | app/models/journal.rb:15-23 | None, standing for the empty `limit(1)` relation, iff nothing is visible; else a visible entry no older than any visible one |
| Journals.FirstSit | app/models/journal.rb:29-32 | nil iff nothing is visible, else a visible entry no newer than any visible one |
| Journals.OwnerViewIsWidest | app/models/journal.rb:15-32 | private entries reach only the owner; the owner sees all another viewer sees, with a latest entry no older and a first no newer |
| Journals.TotalHoursSat | app/models/journal.rb:25-27 | the whole hours of the shared minutes, rounded down |
| Journals.SitsByYear | app/models/journal.rb:102-104 | exactly the shared entries of that year |
| Journals.SitsByMonth | app/models/journal.rb:106-120 | nil iff the viewer is neither the owner nor allowed to view; else exactly that month's entries, private ones only for the owner |
| Journals.SitsByMonthOwnerSeesMore | app/models/journal.rb:106-115 | a permitted viewer's month is contained in the owner's month |
| Journals.TimeSatThisMonth | app/models/journal.rb:122-129 | the text reads back as the summed minutes of the month's shared entries |
| Journals.SatPredicatesFindSharedEntries | app/models/journal.rb:11-13 | `has_sat?` iff the owner has a shared entry; `sat_on_date?` (journal.rb:133-135) iff one falls on that day, which implies `has_sat?` |
| Journals.FormatTimeSatReadsBack | app/models/journal.rb:122-129 | the "H hours M minutes" text reads back as the minutes it was made from |
| Journals.FormatTimeSatExamples | app/models/journal.rb:125-128 | 120 minutes is "2 hours", 130 minutes is "2 hours 10 minutes" |
| Journals.TimeSatOnDate | app/models/journal.rb:190-196 | the loop returns the summed minutes of that day's shared entries |
| Journals.SatForXOnDate | app/models/journal.rb:160-166 | true iff there is an entry that day and the day's minutes reach the threshold |
| Journals.DaysSatInDateRange | app/models/journal.rb:147-157 | counting day changes over newest-first entries gives the number of distinct days in the range |
| Journals.CountDayChanges | app/models/journal.rb:151-157 | counting an entry whenever its day differs from the previous entry's, over newest-first entries, gives the number of distinct days they fall on |
| Journals.DaySetBound | app/models/journal.rb:147-157 | there are never more days than entries, and no days iff no entries |
| Journals.DayMinutes | app/models/journal.rb:180-185 | the inner loop sums the minutes of the entries on that day |
| Journals.DaysSatForMinXMinutes | app/models/journal.rb:169-188 | counts exactly the distinct days whose entries add up to the threshold |
| Journals.AtLeastDaysWithinDaysSat | app/models/journal.rb:169-188 | such days are days sat, so the count never exceeds the number of days sat |
| Journals.DayMinutesExamples | spec/models/journal_spec.rb:86-106 | two 20-minute sits give 40 minutes; one 30-minute sit reaches 30 but not 31 |
| Journals.SameDayCountsOnce | spec/models/journal_spec.rb:116-125 | two 30-minute sits on one day count as one day |
| Journals.TwoDaysFromThreeSits | spec/models/journal_spec.rb:72-84 | a sit yesterday and two the day before make two days |
| Journals.MonthsSat | app/models/journal.rb:38-54 | the hash holds exactly the months from the first entry to today with entries, each with its count, and no empty year; None stands for the two places the source raises: no first sit (journal.rb:40) and a nil `sits_by_month` once there is a month to count (journal.rb:45) |
| Journals.AddMonth | app/models/journal.rb:45-49 | recording a month with entries extends a correct hash by that month |
| Journals.MonthsDownTo | app/models/journal.rb:59-76 | the first loop lists the months from now down to the first entry's month, stepping through December of the year before |
| Journals.MonthListShape | app/models/journal.rb:62-76 | that list starts at now, steps down one month at a time, ends at the first month and has no repeats |
| Journals.DropdownMonths | app/models/journal.rb:56-100 | false without a shared entry; no result when the first month lies after now; an error when `sits_by_month` is nil; else the totals over the month list |
| Journals.MonthTotals | app/models/journal.rb:78-97 | the second loop produces the year and month totals of its specification |
| Journals.MonthStep | app/models/journal.rb:84-96 | one pass adds the year's total on a year change with entries, then the month's total when non-zero |
| Journals.TotalsArePositive | app/models/journal.rb:89-94 | every listed total is above 0 |
| Journals.MonthEntriesAreActiveMonths | app/models/journal.rb:83-97 | leaving year headers aside, the totals list exactly the months with entries, in order, each with its count |
| Journals.IndexOf | app/models/journal.rb:200 | nil iff the month is not listed, else its first position |
| Journals.NextPrevLinks | app/models/journal.rb:199-219 | with a listed current month there is no first-month link; otherwise there are no prev/next links and the first listed month is offered; with an empty list the model offers none where the source raises |
| Journals.NavigationOnMonthList | app/models/journal.rb:199-211 | on the dropdown's list, prev is the month before and next the month after, absent exactly at the first entry's month and at the current month |

## Left out

- Controllers, views, Devise authentication, Paperclip avatars, Textacular
  search, the mailer, notifications, messages, likes, favourites, goals and
  reports are not part of this model.
- `follow!`, `unfollow!` and `users_to_follow` are not modelled. They are
  SQL joins and grouping with notification side effects. Relationships are
  a set the other operations read.
- Tag persistence (`Tag.where(name:).first_or_create!`, `tagged_with`,
  `tag_counts`) is not modelled. A sit's tags are the list of names.
  Assigning `self.tags` keeps the taggings that stay in their old order,
  so `tag_list` may read back in another order than written;
  Sits.TagListRoundTrip states the round trip for the list as assigned.
- `get_monthly_stats`, `feed`, `explore`, `newest_users` and `active_users`
  compose modelled queries with SQL ordering and pagination. They are not
  modelled.
- Time zones, `Time.now` and `Date.today` are parameters. Dates before the
  Gregorian reform are treated as proleptic Gregorian.
- White space is the ASCII set. Unicode white space and encodings are not
  modelled.
- Text.Strip: a NUL is removed at the end of the text, as `rstrip` removes
  it, and not at the start. Ruby versions whose `lstrip` also removes a
  leading NUL are not modelled.
- Concurrent requests and database transactions are not modelled.
- Sits.Errors: a duration field is one of blank, whole number, number with a
  fraction, or non-numeric text; the exact numeric grammar of Rails is not
  modelled.
- Sits.FullTitle: the text is stated for every duration; its read-back as
  the duration is stated for durations of 0 and above only. Validation keeps
  saved durations positive.
- Sits.NextThenPrev: it promises an entry with the same timestamp, not the
  same entry. Ties in `ORDER BY created_at` are not fixed by the database.
- Journals.FormatTimeSatReadsBack: it is stated for minutes of 0 and
  above. Negative sums cannot come from valid entries.
- Journals.TimeSatThisMonth: the read-back is stated for month sums of 0
  and above, for the same reason.
- Journals.DropdownMonths: the source loops forever when the first entry's
  month lies after the current month. The model returns `NeverEnds` there.
  The source compares year strings, which the model takes as 4-digit
  years. When `sits_by_month` is nil the source raises NoMethodError;
  the model returns `NoAccess`. The `pointer` starts at 2000, as in the
  source, and is compared with the list's first element, the current
  month. So when the current month is in the year 2000, that year gets no
  header.
- Journals.MonthsSat: the source raises NoMethodError when there is no
  first sit and when `sits_by_month` is nil for a month to count. The
  model returns None in both places.
- Journals.LatestSit: the source returns a `limit(1)` relation, which may
  be empty but is never nil. The model returns None for the empty one.
- Journals.NextPrevLinks: when the current month is not listed and the
  list is empty, the source calls `split` on nil and raises. The model
  offers no first month. The dropdown's own list is never empty.
- Journals.SitsByMonth: for a viewer who is not signed in the source calls a
  method on nil and raises. The model returns nil, as for a refused viewer.
- Users.ViewableAndFollowingUsers: it is built on the corrected
  `viewable_users` of the second finding. The feed as written is
  Users.ViewableAndFollowingUsersAsWritten.
- Users.User.SetSelectedUsers: form values become ids by `to_i`, so a
  non-numeric value becomes 0. Rails' own integer cast is not modelled
  beyond that.
- Users.User.SelectedUsers: it reads the table in the order the rows were
  created. `authorised_users` has no ORDER BY, so the database may return
  them in another order. For that case Users.SelectedAfterReplaceAnyOrder
  and the last ensures of Users.User.SetSelectedUsers state the read-back
  as a multiset.
- Users.SelectedAfterReplace: its order holds only when the rows come back
  in creation order, for the same reason.
- Text.Split: Ruby's `split` drops trailing empty fields. The model keeps
  them; `tag_list=` discards blank fields either way.
- `streak` uses the default scope as written, so private sits never count
  towards it.
- Streaks.StreakIsRunEndingToday: stated only when no sit is dated after
  today. A sit's date comes from the user's custom date, which may lie in
  the future, and the walk as written then starts there (see Findings).
- Streaks.StreakIsRun: stated only when no sit is dated after today, for
  the same reason.

## Findings

| source | as written | input that shows it | evidently intended | confidence | as-written member | corrected member |
|---|---|---|---|---|---|---|
| app/models/user.rb:120 | `sits.unscoped.update_all(private: false)`: `unscoped` drops the association's `user_id` condition, so the update clears the private flag on every sit in the table | user A leaves the private tier while user B has a private sit: B's sit becomes public | clear the flag on the owner's sits only (`Sit.unscoped { sits.update_all(private: false) }`) | not executed | Users.UnscopedClearReachesOtherUsers | Users.FromPrivateShowsAllOwnerSits |
| app/models/user.rb:57-59 | `privacy_selected_users` lists every user who whitelisted the viewer, whatever that user's current tier, so `viewable_users` and the feed disagree with `can_view_content_of` | user 1 whitelists user 2, then switches to tier following without following user 2: user 1 is in user 2's `viewable_users`, yet `can_view_content_of` refuses | also require `users.privacy_setting = 'selected_users'` on the whitelist branch | not executed | Users.ViewableUsersAsWrittenAdmitsStaleWhitelist | Users.ViewableUsersMatchesCanView |
| app/models/sit.rb:130-134 | `reject!` asks `blank?` before `strip`; `blank?` does not count a NUL as white space, but `strip` removes NULs at the end | the tag list "\0" (or "a, \0") gives a tag whose name is empty | strip each field, then reject the blank ones | not executed | Sits.NulFieldMakesEmptyTag | Sits.NonBlankTagNamesAreClean |
| app/models/streak.rb:5-21 | the walk starts at the newest sit, so a sit dated after today (a custom date in the future) is walked from | today D with sits on D+5, D and D-1 gives 0, though the user sat today and yesterday; sits on D+1, D and D-1 give 3, though the run ending today is 2 days | walk only the sits dated no later than today | not executed | Streaks.FutureSitChangesStreak | Streaks.StreakUpToTodayIsRunEndingToday |
