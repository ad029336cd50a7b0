# Tournament portal rules in Dafny

This project models the request handlers of `server.js`, the Express backend of
a tournament portal. Administrators create events, sports and venues. Team
managers register teams with rosters. Administrators approve, reject or
disqualify teams, schedule matches and enter scores. The portal derives the
standings from a points table.

The model is split by concern:

- `dates.dfy`: the calendar rules, with days as integers and times as whole minutes:
  - the registration status of a window;
  - the date-order rules;
  - the SQL overlap tests of event creation and update;
  - playing hours;
  - the two-hour conflict window.
- `roster.dfy`: `validatePlayers` and the per-player field checks run while players are inserted.
- `text.dfy`: JavaScript's `trim` and the `\s` and `\d` classes, `parseInt` of digit strings and ASCII `LOWER`.
- `lifecycle.dfy`, `admission.dfy`, `scheduling.dfy`, `catalog.dfy`: the queries and bulk updates the endpoints run, written as functions on the tables.
- `scoring.dfy`, `standings.dfy`: the score engine on the PointsTable (apply, roll back, correct, disqualification reset) and the order of the standings query.
- `entities.dfy`, `tables.dfy`, `wrappers.dfy`: the rows, the store snapshot `Db`, the error kinds and generic map facts.
- `portal.dfy`: class `Portal`:
  - it holds one field per table and one per auto-increment counter;
  - each endpoint is a method that answers `Ok` or `Err`;
  - every `Err` leaves `Tables()` (all tables and counters) as it was;
  - the transactional endpoints roll back;
  - the others return before any write.

  For the long endpoints the first failing check is a pure "refusal" function, such as `RegistrationRefusal` or `ScheduleRefusal`. Such a function:
  - lists the checks in the code's order;
  - states exactly when it accepts.

  The method then proves that its answer and its new state follow that function.

`today` and `now` are parameters. The acting user's id and admin role are parameters too. Dates are the days the code normalises them to, and times are minutes whose hour is `(t / 60) % 24`.

Behaviour of server.js that the model keeps, although a reader might expect otherwise:

- Approving a team has no status guard.
- Disqualifying only rejects a team that is already disqualified. It does not require the team to be approved.
- Registration does not require the sport to be linked to the event through EventSports.
- Rescheduling checks neither the venue nor the event's dates. It logs a history row whenever a time is sent, even an unchanged one, and never for an update of only the venue or status.
- Deleting a sport is blocked by approved teams, not by match history.
- Deleting a match is refused only for a completed match or one whose time has passed. Live and cancelled future matches can be deleted.
- An admin may delete or edit any team. Only a manager is restricted to their own pending teams.
- Creating a venue requires a sport.
- Activation looks only at the first active event the query returns.
- Updating a team never changes its logo. The update route fills `req.files`, but the handler reads `req.file`, so the logo branch never runs. `UpdateTeam` therefore has no logo parameter.

## Model

| member | source | states |
|---|---|---|
| Dates.CalculateRegistrationStatus | server.js:227-240 | not started exactly when today is before the first day, closed exactly when today is after the last day, open otherwise |
| Dates.MillisAgreeWithDays | server.js:227-240 | comparing millisecond timestamps (midnight of start, 23:59:59.999 of end) gives the same status as comparing days |
| Dates.WindowBoundaries | server.js:227-240 | the first and last days of a window are open, the day before is not started, the day after closed |
| Dates.ValidateRegistrationDates | server.js:242-280 | no message exactly when today <= reg start <= reg end <= event start <= event end; a message is present exactly when its rule is violated, and none appears twice |
| Dates.SqlOverlap | server.js:733-735 | the three-clause SQL test equals interval intersection on well-formed intervals |
| Dates.SqlCrossOverlap | server.js:742-747 | the two-clause cross test equals intersection of the stored interval with the candidate |
| Dates.EventsClash | server.js:727-749 | two events clash exactly when event spans, registration windows, or either event's span and the other's window share a day |
| Dates.ClashIsSymmetric | server.js:727-749 | on well-formed dates the clash test does not depend on which event is stored |
| Dates.SqlOverlapOnMalformedInterval | server.js:733-735 | a reversed stored interval can satisfy the test without sharing a day, so the test relies on the date rules |
| Dates.HourOf | server.js:2613-2616 | the hour of a moment lies in 0..23 |
| Dates.MinuteOfDay | server.js:2613-2616 | the minute of the day lies in 0..1439 |
| Dates.PlayingHoursAsMinutes | server.js:2616 | hours 8 to 21 are exactly the minutes 480 to 1319 of a day |
| Dates.WithinEventSpanByDay | server.js:2627-2635 | a moment lies between the event's first midnight and 23:59 of its last day exactly when its day is one of the event's days |
| Dates.Abs | server.js:2574 | the absolute value is non-negative and equals x or -x |
| Dates.TwoHourWindow | server.js:2574 | the strict 120-minute test is symmetric and holds exactly for differences -119..119 |
| Text.TrimStart | server.js:1959 | the result is no longer than the input (TrimStartIsSuffix states what is removed) |
| Text.TrimEnd | server.js:1959 | the result is no longer than the input (TrimEndIsPrefix states what is removed) |
| Text.Trim | server.js:1959 | the result is no longer than the input (TrimIsInfix states what is removed) |
| Text.TrimStartIsSuffix | server.js:1959 | the result is a suffix of the input, everything dropped at the front is white space, and it does not start with white space |
| Text.TrimEndIsPrefix | server.js:1959 | the result is a prefix of the input, everything dropped at the end is white space, and it does not end with white space |
| Text.TrimIsInfix | server.js:1959 | the trimmed text is a contiguous part of the input starting after the leading white space, and neither starts nor ends with white space |
| Text.TrimWithoutSpaces | server.js:2005 | a string with no white space is its own trim |
| Text.TrimDigits | server.js:2020 | a digit string is stored unchanged by `jersey_no.trim()` |
| Text.Utf16Length | server.js:1954-1958 | `.length` counts UTF-16 code units: between the number of characters and twice it, and equal to it when every character is in the Basic Multilingual Plane |
| Text.Utf16LengthOfEmoji | server.js:1954-1958 | two emoji are two characters but four code units |
| Text.DigitValue | server.js:2012-2013 | a digit's value lies in 0..9 |
| Text.SmallValueLeadingZeros | server.js:2012-2013 | a digit string of value at most 99 has only zeros before its last two digits |
| Text.ZeroValueAllZeros | server.js:2012-2013 | a digit string of value 0 is made of zeros |
| Text.ToLower | server.js:1719 | lower-casing keeps the length and maps each ASCII capital to its small letter |
| Roster.CountKind | server.js:175-176 | the count is at most the roster length, zero exactly when no player has the kind, and the length exactly when every player has it |
| Roster.CountsAdd | server.js:175-176 | both counts add over a concatenation, as filter lengths do |
| Roster.CountSingle | server.js:175-176 | a single player counts 1 exactly when it has the kind (and, for the position count, is a main player at that position), else 0 |
| Roster.KindsAddUp | server.js:175-176 | the main, substitute and other-kind counts add up to the roster length |
| Roster.CountMainAt | server.js:209-216 | the count is at most the number of main players, and zero exactly when no main player has the position |
| Roster.Jerseys | server.js:191 | the jersey list has one entry per player, in order |
| Roster.IndexOf | server.js:192 | for a present value, the index of its first occurrence |
| Roster.DuplicatesFrom | server.js:192 | from index k on, the filter keeps exactly the jerseys that occur earlier in the list |
| Roster.Dedup | server.js:194 | the same elements as its input, each exactly once |
| Roster.DuplicatesAreRepeated | server.js:191-195 | a jersey is reported exactly when it occurs twice |
| Roster.DistinctIffNoDuplicates | server.js:191-195 | no duplicates are reported exactly when jerseys are pairwise distinct |
| Roster.PositionErrors | server.js:198-204 | one message per player with a given position outside the vocabulary, numbering players from 1 |
| Roster.CountErrors | server.js:180-188 | the main-count message exactly when mains differ from team size, the substitute message exactly when subs exceed the maximum |
| Roster.DuplicateErrors | server.js:191-195 | a message exactly when jerseys repeat, listing every repeated jersey once |
| Roster.PositionPart | server.js:198-204 | position messages only for a sport with a vocabulary, exactly for the rejected positions |
| Roster.KeeperErrors | server.js:207-219 | the goalkeeper and wicket-keeper messages exactly when the football or cricket main roster lacks exactly one |
| Roster.ValidatePlayers | server.js:170-222 | no message exactly when the roster satisfies every rule |
| Roster.InValidation | server.js:170-222 | a message is in the result exactly when one of the four groups produced it |
| Roster.CountAndKeeperMessages | server.js:180-219 | each count and keeper message appears exactly when its rule is broken |
| Roster.CountMessages | server.js:180-188 | the main-count and substitute messages of the whole validation appear exactly when their rules are broken |
| Roster.KeeperMessages | server.js:207-219 | the goalkeeper and wicket-keeper messages of the whole validation appear exactly when their rules are broken |
| Roster.JerseyMessageIffShared | server.js:191-195 | a duplicate-jersey message appears exactly when two players share a jersey |
| Roster.DuplicateReportOnlyFromJerseys | server.js:170-222 | only the jersey group can contribute a duplicate report |
| Roster.JerseyMessageLists | server.js:194 | the message lists every repeated jersey exactly once |
| Roster.PositionMessages | server.js:198-204 | a position message for player i+1 appears exactly when player i's position is rejected |
| Roster.TrimKeepsNameChars | server.js:1999-2004 | trimming a name matching the name pattern keeps it within the pattern's characters |
| Roster.NameLengthIsCodeUnits | server.js:2004 | for a name matching the pattern, the trimmed `.length` in code units equals its number of characters, so the 2-to-50 rule may count characters |
| Roster.CheckPlayerFields | server.js:1995-2015 | no field error exactly when the name and jersey are given, the name matches the pattern with a trimmed length of 2 to 50, and the jersey is a digit string of value at most 99; a passing name is made of pattern characters and a passing jersey is its own trim; the missing-field error exactly when a field is empty; the name, jersey and range errors only when their rule fails |
| Roster.JerseysComparedAsText | server.js:191-192 | "7" and "07" pass the field checks and count as distinct jerseys although both parse to 7 |
| Admission.BlockingTeam | server.js:1924-1931 | a returned team has the same manager, sport and event and is pending, approved or disqualified; none is returned exactly when no such team exists |
| Admission.BlockError | server.js:1933-1947 | the refusal names the blocking team's status |
| Admission.EmojiTeamNameAccepted | server.js:1954-1958 | a team name of two emoji meets the 3-to-50 length rule, as its `.length` is 4 |
| Admission.RosterRows | server.js:2017-2020 | one row per player at consecutive ids from the counter, the row at base+i being player i's row (trimmed name and jersey, age 0 and empty position stored as NULL) |
| Admission.RosterRowsExtend | server.js:1994-2021 | the rows of one more player are the earlier rows plus that player's row |
| Admission.InsertRowExtends | server.js:2017-2020 | one insert step extends the table by exactly the next row |
| Admission.StoredPlayerKeepsJersey | server.js:2019 | a player passing the field checks is stored with its jersey text unchanged and a name of 2 to 50 characters |
| Admission.StoredRosterKeepsJerseys | server.js:2019 | every stored row of a valid roster keeps its player's jersey |
| Admission.WithoutTeamPlayers | server.js:2350 | the rows of other teams are kept unchanged and the team's rows removed (ReplacedRosterIsExactlyNew states the replacement) |
| Admission.ReplacedRosterIsExactlyNew | server.js:2350-2381 | after the team's players are deleted and the new roster inserted above every stored id, the team's rows are exactly the new ones, in roster order, and every other row is kept with no row added |
| Admission.PendingTeamOf | server.js:1200-1207 | a pending team of the event, found exactly when one exists |
| Admission.CountApprovedZero | server.js:1594-1599 | the approved count is zero exactly when no approved team exists for the event and sport |
| Admission.CountApprovedTwo | server.js:2586-2594 | the count reaches two exactly when two different approved teams exist |
| Admission.TwoApprovedTeams | server.js:2586-2594 | with all ids below the counter, a count of at least two means two distinct approved teams |
| Lifecycle.Refresh | server.js:565-588 | the event keeps every field; its cached status becomes the calendar's |
| Lifecycle.Refreshed | server.js:565-591 | every event is refreshed and the table keeps its ids |
| Lifecycle.RefreshedIsCurrent | server.js:565-591 | after the refresh every cached status agrees with the calendar, and refreshing again changes nothing |
| Lifecycle.FirstActive | server.js:1353 | an active event, found exactly when one exists |
| Lifecycle.CompleteActive | server.js:1381 | every active event becomes completed and nothing else changes |
| Lifecycle.Promote | server.js:1381-1382 | after activation the target is the only active event and every earlier active event is completed |
| Lifecycle.CancelEventMatches | server.js:1375-1378 | exactly the event's scheduled and live matches become cancelled |
| Lifecycle.PendingMatchIn | server.js:1356-1361 | a scheduled or live match of the event, found exactly when one exists |
| Lifecycle.CompletedMatchIn | server.js:1248-1253 | a completed match of the event, found exactly when one exists |
| Lifecycle.ClashingEvent | server.js:727-776 | a non-completed other event clashing with the dates, found exactly when one exists |
| Lifecycle.CompetingEvent | server.js:835-854 | another open or active event whose window overlaps, found exactly when one exists |
| Scheduling.VenueClash | server.js:2568-2576 | a scheduled or live match at the venue strictly within two hours, found exactly when one exists |
| Scheduling.TeamClash | server.js:2638-2647 | a scheduled or live match, with both its teams stored, sharing a team strictly within two hours, found exactly when one exists |
| Scheduling.RescheduleClash | server.js:2717-2724 | another scheduled or live match sharing a team strictly within two hours, found exactly when one exists |
| Scheduling.ConflictNeedsSharedTeamWithinTwoHours | server.js:2638-2647 | a match that shares no team, or lies two hours or more away, never blocks |
| Scheduling.OrphanedMatchBlocksOnlyReschedule | server.js:2638-2647 | a match whose opponent row is gone blocks a reschedule but not scheduling, because the join drops it |
| Scheduling.CompletedMatchOfTeam | server.js:2421-2426 | a completed match of the team, found exactly when one exists |
| Scheduling.CancelFutureMatches | server.js:2239-2245 | exactly the team's scheduled matches after now become cancelled; all others stay |
| Scheduling.CancellationKeepsCompletedMatches | server.js:2239-2245 | the cancellation touches no completed match: every team keeps exactly its completed matches, and the completed-match lookup finds the same row as before |
| Catalog.WithoutSport | server.js:1421 | links of other sports are kept and links of the sport removed (WithoutSportPartitionsLinks states the partition) |
| Catalog.WithoutSportPartitionsLinks | server.js:1421 | afterwards no event is linked to the sport; the kept links and the sport's links are disjoint and together make up the old links; deleting again changes nothing |
| Standings.MinusUndoesPlus | server.js:2819-2864 | subtracting a contribution undoes adding it |
| Standings.PlusZeroed | server.js:2090 | adding to a zeroed row gives the contribution |
| Standings.Contribution | server.js:2897-2918 | one played match, exactly one of win/draw/loss, 3/1/0 points, goals for and against |
| Standings.MatchIsBalanced | server.js:2897-2941 | the wins of one side are the losses of the other, and the draws, goals and match counts agree |
| Standings.RanksBeforeIsTotalPreorder | server.js:3024-3028 | the standings order is total and transitive |
| Standings.SortedListsDisqualifiedLast | server.js:3025 | in a sorted list no disqualified team precedes a team that is not |
| Standings.Insert | server.js:3024-3028 | inserting into a sorted list keeps it sorted and is a permutation |
| Standings.RanksBeforeOrderFirst | server.js:3024-3028 | putting an element ranked before the head of a sorted list in front of it gives a sorted list |
| Standings.InsertAfterHead | server.js:3024-3028 | the head followed by a sorted permutation of the tail plus the new element is sorted, when the element does not rank before the head |
| Standings.SortStandings | server.js:3024-3028 | the result is sorted and a permutation of the rows |
| Scoring.WinnerOf | server.js:2876-2878 | the strictly higher score's team, none on a tie |
| Scoring.SidesGetTheirContribution | server.js:2897-2941 | with two different teams, each side's delta is its match contribution |
| Scoring.AddTo | server.js:2898-2907 | every row id is kept; exactly the rows of the team, event and sport have the delta added to their counters, and nothing else in any row changes |
| Scoring.SubtractFrom | server.js:2820-2829 | every row id is kept; exactly the rows of the team, event and sport have the delta subtracted from their counters, and nothing else in any row changes |
| Scoring.ApplyScore | server.js:2897-2941 | every row id is kept (ApplyScoreCounts states the effect on each row) |
| Scoring.UndoScore | server.js:2815-2864 | every row id is kept (UndoCancelsApply states that it rolls a result back) |
| Scoring.ApplyScoreCounts | server.js:2897-2941 | a fresh result adds one match to each team's rows and the points its result earns |
| Scoring.UndoCancelsApply | server.js:2815-2864 | rolling a result back restores every row |
| Scoring.CorrectionReplacesResult | server.js:2815-2941 | correcting a to b gives the rows of b applied alone |
| Scoring.DrawCorrectedToWinForTeam1 | server.js:2815-2941 | 2-2 corrected to 3-1 leaves team 1 with one win, no draw and 3 points on a fresh row |
| Scoring.DrawCorrectedToWinForTeam2 | server.js:2815-2941 | the same correction leaves team 2 with one loss and no points |
| Scoring.ResetForDisqualification | server.js:2230-2236 | the team's rows get 0 points, wins and draws and keep matches played, losses and goals; other rows stay |
| Scoring.ListedRows | server.js:3002-3022 | one standing per listed key, in key order (`r[i]` is the standing of row `ListedKeys[i]`), so a team with two PointsTable rows appears twice; a standing is listed exactly when some listed row gives it |
| Scoring.ListedKeys | server.js:3002-3022 | the ids of exactly the rows whose team, sport and event exist and that match the filters, each once, in increasing order |
| Scoring.PointsStandings | server.js:2998-3031 | the listed rows, sorted by the standings order, as a permutation |
| Tables.FirstKeyWhere | server.js:1924-1931 | the lowest id in range whose row matches, or none when no id in range matches |
| Tables.FirstKeyFindsAny | server.js:1924-1931 | with all ids below the counter, the scan finds a row exactly when a matching row exists |
| Tables.FirstKeyWhereAgrees | server.js:1924-1931 | two tables with the same ids whose rows agree on the condition give the same first row |
| Portal.WindowRefusal | server.js:1896-1921 | refused unless the cached status is open and today lies in the window; not-started and closed statuses give their own errors |
| Portal.RosterRefusal | server.js:1972-1983 | refused exactly when the roster fails the rules, carrying validatePlayers' messages |
| Portal.SportRefusal | server.js:1966-1983 | a fee without a payment screenshot is refused first, then the roster rules |
| Portal.TeamRefusal | server.js:1924-1964 | refused exactly when a blocking team exists, the trimmed name is not 3 to 50 UTF-16 code units, or the sport is missing |
| Portal.RegistrationRefusal | server.js:1888-1983 | a missing event refuses first; a refusal is never a per-player error, and a roster refusal carries validatePlayers' messages for the stored sport; none exactly when every check passes |
| Portal.UpdateRefusal | server.js:2292-2347 | the first failing update check: team missing, not the manager, not pending for a manager, a given name outside 3 to 50 UTF-16 code units after trimming, missing sport, roster rules |
| Portal.VenueRefusal | server.js:2553-2581 | an existing venue tied to another sport or busy within two hours is refused; a missing venue id is not checked |
| Portal.ApprovedPairCount | server.js:2586-2594 | the approved count is at least two exactly when two different approved teams exist |
| Portal.PairRefusal | server.js:2586-2608 | too few teams exactly when fewer than two distinct approved teams exist; teams-not-found only when a named team is missing; not-approved only when both exist and one is not approved; none exactly when all checks pass |
| Portal.ScheduleRefusal | server.js:2545-2651 | the same team twice always refuses; a busy venue, a busy team or hours outside 8 to 21 are refused only when true; none exactly when every check passes |
| Portal.RescheduleRefusal | server.js:2689-2728 | a missing match is refused; a completed match not sent as completed exactly gives the completed error; a team conflict only when one exists; none exactly when every check passes |
| Portal.ScoreRefusal | server.js:2772-2806 | negative exactly when a score is negative; too high exactly when both are non-negative and one exceeds 100; too early only before the match time; none exactly when every check passes |
| Portal.PointsAfterScore | server.js:2815-2941 | a first score is applied; a correction gives the rows the new score alone would give |
| Portal.CorrectionsReplace | server.js:2815-2941 | roll back a, then apply b, equals applying b alone |
| Portal.InsertRows | server.js:1994-2022 | the rows of every player when all pass; otherwise the first failing player's error |
| Portal.Portal.constructor | server.js:86-117 | an empty store whose counters start at 1 |
| Portal.Portal.RefreshRegistrationStatuses | server.js:565-591 | the loop rewrites exactly the stale statuses and nothing else |
| Portal.Portal.CreateEvent | server.js:696-809 | refusals for missing fields, date rule messages, or a clashing event; otherwise a planned event with the computed status |
| Portal.Portal.UpdateEvent | server.js:894-1050 | refused for a missing or completed event, date rules when a registration date is given, or a clash when any date is given; otherwise the given fields replace the stored ones |
| Portal.Portal.OpenRegistrations | server.js:811-891 | the status guards, then the window-overlap check, then today within the window; success sets status and registration status to open |
| Portal.Portal.ReopenRegistrations | server.js:1053-1173 | dates required, event not completed and not started, date rules, no competing window; success stores the new window, open for registration |
| Portal.Portal.CloseRegistrations | server.js:1176-1242 | planned or open event, not already closed, no pending team; only the registration status changes |
| Portal.Portal.DeleteEvent | server.js:1245-1265 | refused exactly when the event has a completed match; otherwise only the event row goes |
| Portal.Portal.CompleteEvent | server.js:1268-1291 | only an active event, which becomes completed |
| Portal.Portal.ReopenEvent | server.js:1294-1317 | only a completed event, which becomes active |
| Portal.Portal.ActivateEvent | server.js:1320-1396 | closed registrations and no pending team required; a current active event with matches to play needs force, which cancels them; the target is then the only active event |
| Portal.Portal.CancelPendingMatches | server.js:1374-1378 | the forced cancellation of the current event's matches to be played |
| Portal.Portal.PromoteEvent | server.js:1381-1382 | the demote-then-promote pair of updates |
| Portal.Portal.CreateSport | server.js:1700-1737 | name and team size 1..50 required, fee 0 or 200..5000, name new up to case; otherwise the sport is stored |
| Portal.Portal.DeleteSport | server.js:1399-1431 | refused for a missing sport or one with approved teams; otherwise the sport and its links go |
| Portal.Portal.CreateVenue | server.js:3051-3073 | a missing name, then a missing or zero sport id, is refused with the store unchanged; accepted exactly when both are given, storing the venue at the next id |
| Portal.Portal.DeleteVenue | server.js:1434-1463 | refused for a missing venue or one any match refers to; otherwise the venue goes |
| Portal.Portal.AddSportToEvent | server.js:1482-1505 | refused exactly when the link exists; otherwise it is added |
| Portal.Portal.RemoveSportFromEvent | server.js:1577-1616 | only for the active event without approved teams in the sport; the link is removed |
| Portal.Portal.InsertPlayers | server.js:1994-2022 | all rows inserted when every player passes; otherwise the store is unchanged and the first failing player's error returned |
| Portal.Portal.SetPlayers | server.js:2017-2020 | the Players table and counter after the inserts |
| Portal.Portal.InsertTeam | server.js:1985-2051 | the team, its players and the "created" row, or a rollback to the store before the transaction |
| Portal.Portal.AddTeamRow | server.js:1986-1991 | the Teams insert at the next id |
| Portal.Portal.RestoreTeams | server.js:2050-2051 | the Teams table and counter put back by the rollback |
| Portal.Portal.RestorePlayers | server.js:2392-2393 | the Players table put back by the rollback |
| Portal.Portal.AppendTeamLog | server.js:2024-2027 | one TeamRegistrationHistory row appended |
| Portal.Portal.RegisterTeam | server.js:1874-2057 | answers the first refusal; succeeds exactly when every check passes; stores a pending team, its players and a "created" row |
| Portal.Portal.ApproveTeam | server.js:2060-2122 | any team the join finds becomes approved, with a zeroed points row and an "approved" row |
| Portal.Portal.RejectTeam | server.js:2127-2190 | any team the join finds becomes rejected with its reason and a "rejected" row |
| Portal.Portal.AddPointsRow | server.js:2089-2092 | the PointsTable insert at the next id |
| Portal.Portal.SetPoints | server.js:2230-2236 | a PointsTable update keeping its row ids |
| Portal.Portal.CancelFutureMatchesOf | server.js:2239-2245 | the disqualification's bulk cancellation |
| Portal.Portal.DisqualifyTeam | server.js:2195-2276 | refused for a missing or already disqualified team; otherwise the reset, the cancellation and a "disqualified" row |
| Portal.Portal.UpdateTeam | server.js:2279-2399 | answers the first refusal; otherwise the trimmed name, the replaced roster and an "updated" row |
| Portal.Portal.ReplaceTeam | server.js:2325-2393 | the update transaction, rolled back when a player fails |
| Portal.Portal.SetTeamRow | server.js:2083-2086 | a Teams row update |
| Portal.Portal.DropTeamPlayers | server.js:2350 | the delete of all the team's players |
| Portal.Portal.DeleteTeam | server.js:2402-2439 | not found, not the manager, not pending for a manager, or completed matches refuse; otherwise only the team row goes |
| Portal.Portal.ScheduleMatch | server.js:2549-2682 | with the fields present: answers the first refusal; succeeds exactly when every check passes; inserts one scheduled match |
| Portal.VenueOrNull | server.js:2654 | the insert's NULL default for a falsy venue: NULL exactly for an absent venue or id 0, any other id kept |
| Portal.Portal.ScheduleMatchRequest | server.js:2542-2682 | a missing or zero id, or a missing time, is refused first with the store unchanged; a venue id of 0 counts as no venue, skipping the venue checks and storing NULL; otherwise the refusal, acceptance and new state of the checked schedule |
| Portal.Portal.AddMatchRow | server.js:2652-2655 | the Matches insert at the next id |
| Portal.Portal.AppendMatchLog | server.js:2732-2735 | one MatchHistory row appended |
| Portal.Portal.SetMatchRow | server.js:2747-2750 | a Matches row update |
| Portal.Portal.SetScore | server.js:2881-2888 | the Scores upsert |
| Portal.Portal.RescheduleMatch | server.js:2685-2756 | answers the first refusal; a new time is logged; given fields replace the stored ones |
| Portal.Portal.SubmitScore | server.js:2772-2956 | with both scores present: answers the first refusal; succeeds exactly when every check passes; stores the score, the completed match, the corrected points and any correction row |
| Portal.Portal.SubmitScoreRequest | server.js:2764-2956 | a missing score is refused first with the store unchanged; otherwise the refusal, acceptance and new state of the checked score entry |
| Portal.Portal.StoreScore | server.js:2815-2941 | the correction row, the score with its winner, the completed match, and the corrected points |
| Portal.Portal.DeleteMatch | server.js:2958-2992 | missing or completed matches, and past matches, are refused; otherwise only the match goes |

## Left out

- Authentication, signup, login, password reset and the role middleware: the actor's id and admin role are parameters.
- Email notifications: they never affect an outcome.
- Multer file uploads: logo and payment screenshot are optional opaque strings.
- The MySQL pool and the SQL text: tables are maps and queries are functions. A transaction is modelled by its effect, all or nothing.
- The read-only GET endpoints and `checkAuthStatus`, apart from the registration-status refresh of the event listing and the standings order.
- Concurrency and the races between a check and its write: requests are sequential.
- Time zones and `getHours`: a moment is a whole number of minutes since a local midnight, so seconds are not modelled.
- HTTP status codes and message texts: each refusal is an error kind.
- Input-shape failures: a JSON roster that does not parse, and scores sent as strings or as `null`. Missing request fields are modelled as absent `Option` values, and only where the code checks them.
- `isValidEmail` and the Users join that fetches the manager's e-mail.
- Events whose registration dates are NULL: every event carries dates, as creation requires.
- Schema constraints the code does not check (unique keys, foreign keys, cascades). For example, approving twice inserts a second PointsTable row, as the code would without a unique key.
- `LOWER` is modelled for ASCII letters only.
- A `SELECT` without `ORDER BY` whose first row is used is modelled as returning the lowest id.
- The ids of a rolled-back insert are not consumed: the counters are restored too.
- An empty status string sent to the match update is modelled as "not given".
- Portal.Portal.UpdateTeam: a team whose sport row is gone makes the code fail with a TypeError. The model answers InvalidSport instead.
- Portal.Portal.UpdateTeam: the code stores the name before checking the roster. The model checks first, which is equivalent because the transaction rolls back.
- Portal.Portal.RescheduleMatch: it does not check the venue or the event's dates, as in the code.
