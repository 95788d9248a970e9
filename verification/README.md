# MoonBoard Race: derived views, modelled in Dafny

This project models the in-memory logic of a climbing-gym companion app (a
single React component file, `App.tsx`). Climbers log sends of graded
"benchmark" routes. The app derives three views from the loaded data: a
per-grade race leaderboard, a climber's logbook, and a seven-day session
calendar. The page itself is an accordion of three boxes.

Modules, one per component of the file, plus the shared records and the shared sort:

- `Domain` (domain.dfy): the `Benchmark`, `Completion`, `Person` and
  `ScheduleEntry` records, the grade vocabulary, and the lookups shared by
  the views. These are `Array.prototype.find` by id and the set of benchmark
  ids a climber has sent.
- `StableSort` (stable_sort.dfy): the stable, descending, key-ordered sort
  that JavaScript's `Array.prototype.sort` performs with the comparators
  used here. It is proved to be a permutation, to be ordered, and to keep
  equal-key elements in input order.
- `Leaderboard` (leaderboard.dfy): the `raceData` memo. It picks the targets
  of the selected grade, computes each climber's score and percent, and
  ranks the climbers.
- `Logbook` (logbook.dfy): the `displayList` memo. It has a "sends" view and
  a catalog view, an exact grade filter, and a date-descending sort.
- `Calendar` (calendar.dfy): the day's sessions, the join guard and the
  entry a join adds, plus the leave action.
- `Accordion` (accordion.dfy): `toggleSection`, the one-open-box state
  machine.

Modelling choices:

- A completion's date is an integer day number, where a larger number is a
  later day. `App.tsx` types it only as a string, and the logbook orders
  rows by `new Date(...)` of it. The model assumes every completion date is
  a non-empty string that parses to a day, so the day numbers stand for what
  `new Date(...)` yields. Nothing in `App.tsx` writes completions.
- `percent` is a Dafny `real`, not an IEEE double.
- Grades are an enumeration with their labels. The selected grade, the
  filter grade and a row's grade are strings, because `App.tsx` compares
  strings. `"All"` and `"?"` are never grade labels.
- The logbook's comparator is `b.date - a.date` when both dates are present
  and 0 otherwise. That is not a consistent ordering on lists that mix dated
  and undated rows, but the logbook never builds such a list. Send rows are
  all dated and catalog rows are all undated (`DerivedRows`). On those two
  kinds of list, the comparator agrees with sorting by `SortKey` descending
  (`SortKeyMatchesComparator`).
- The schedule writes go through the store's `arrayUnion` and `arrayRemove`,
  modelled with the semantics the store documents. `arrayUnion` appends an
  element only if no equal element is present. `arrayRemove` removes every
  equal element. The schedule map stands for the latest snapshot, and a
  write is modelled by its effect on that map. `updateDoc` on a day with no
  document is rejected, and the model leaves the state unchanged.
- The code writes through `arrayUnion` and `arrayRemove`, so a second
  identical join changes nothing (`JoinIsIdempotent`). Joins and leaves
  never put a duplicate into a day's list (`ActionsKeepNoDuplicates`), so a
  leave, which removes every equal entry, removes exactly one entry
  (`ArrayRemoveOne`). Both keep the order of the entries they do not touch,
  which is the order the calendar lists them in.

## Model

| member | source | states |
|---|---|---|
| `Domain.LabelsAreDistinct` | App.tsx:13 | the ten grade labels are pairwise distinct and none is "All" or "?" |
| `Domain.Find` | App.tsx:128 | the `find` by id used for climbers here and for benchmarks at line 330: None exactly when no element has the id; otherwise the first element with that id |
| `StableSort.SortDesc` | App.tsx:261 | sorting keeps the input's length |
| `StableSort.SortDescPermutes` | App.tsx:261 | the sorted list has the same multiset of elements as the input |
| `StableSort.SortDescSorted` | App.tsx:261 | the sorted list is non-increasing in the key |
| `StableSort.SortDescStable` | App.tsx:261 | restricted to any one key value, the sorted list equals the input (ties keep input order) |
| `StableSort.SortDescOfSorted` | App.tsx:355-359 | a list that is already in order, for example one whose keys are all equal, is returned unchanged |
| `StableSort.SortDescIdempotent` | App.tsx:261 | sorting a sorted result again changes nothing |
| `Leaderboard.TargetBenchmarks` | App.tsx:253 | keeps exactly the benchmarks whose grade label equals the selected grade; no benchmarks give no targets, and one benchmark is kept iff it has the grade |
| `Leaderboard.TargetBenchmarksConcat` | App.tsx:253 | the targets of a concatenation are the targets of each part in order; with the one-benchmark case this fixes the target list and its length exactly |
| `Leaderboard.OfferedGrades` | App.tsx:246-249 | the picker opens on the first offered grade, and every offered grade is a grade label |
| `Leaderboard.CountDone` | App.tsx:258 | the score is at most the number of targets; it equals that number iff every target was sent, and is 0 iff none was |
| `Leaderboard.Percent` | App.tsx:259 | 0 with no targets; otherwise the value with percent × total = 100 × score, that is score / total × 100; at least 0, at most 100 when score <= total, and exactly 100 iff score == total |
| `Leaderboard.NoTargetsIffNoneOfGrade` | App.tsx:253-254 | the race has no targets exactly when no benchmark carries the selected grade |
| `Leaderboard.PersonsOfScoreAll` | App.tsx:256-260 | scoring keeps one racer per person, in input order |
| `Leaderboard.RaceStandings` | App.tsx:251-264 | total is the number of target benchmarks, and 0 iff no benchmark has the grade; one racer per person; ranked non-increasing by score; each score within [0, total] and each percent within [0, 100], equal to 100 iff score == total, and 0 when total is 0 |
| `Leaderboard.RankingIsPermutation` | App.tsx:256-261 | the ranked racers' persons are a permutation of the input people |
| `Leaderboard.RacersCarryTheirScore` | App.tsx:256-260 | each ranked racer's score and percent are those of its own person |
| `Leaderboard.RankingIsStable` | App.tsx:261 | the people with any one score appear in the ranking in their input order |
| `Leaderboard.ScoreIgnoresDuplicatesAndOrder` | App.tsx:257-258 | two completion lists with the same elements give the same score, whatever the duplicates or order |
| `Leaderboard.CountDoneIsIntersection` | App.tsx:257-258 | with distinct benchmark ids, the score is the size of the target-id set intersected with the completed-id set |
| `Leaderboard.HalfwayExample` | App.tsx:253-259 | two 6B+ benchmarks and one 7A, one 6B+ sent: total 2, score 1, percent 50 |
| `Logbook.SendRow` | App.tsx:329-338 | a completion's row is done and has its date and rating; with no benchmark of that id it shows "Unknown" and "?"; otherwise it shows the first such benchmark's grade and its name, or "Unknown" if the name is empty |
| `Logbook.SendRows` | App.tsx:329-338 | exactly one row per completion, in logging order, duplicates kept |
| `Logbook.CatalogRows` | App.tsx:341-347 | exactly one row per benchmark, in catalog order, with no date or rating, done iff the id was sent |
| `Logbook.FilterByGrade` | App.tsx:351-353 | "All" keeps the list; any other filter keeps exactly the rows of that grade |
| `Logbook.FilterByGradeConcat` | App.tsx:351-353 | the filter keeps order: filtering a concatenation is concatenating the filtered parts |
| `Logbook.SortKeyMatchesComparator` | App.tsx:355-359 | for two dated rows the comparator says "before" iff the key is larger; for two undated rows it returns 0 |
| `Logbook.DerivedRows` | App.tsx:327-348 | send rows are all done, dated and rated; catalog rows are all undated and unrated, one per benchmark |
| `Logbook.DisplayList` | App.tsx:321-361 | empty without an active user; with a filter every row has that grade; the catalog view is undated and no longer than the catalog; the sends view is done, dated and non-increasing by date |
| `Logbook.NoClimberNoRows` | App.tsx:318-322 | with no climber selected, the list is empty |
| `Logbook.CompletedViewContents` | App.tsx:327-359 | the sends view is a permutation of the filtered completion rows, and rows with the same date keep logging order |
| `Logbook.AllViewKeepsCatalogOrder` | App.tsx:339-359 | the catalog view is exactly the filtered catalog rows in catalog order, because the sort leaves it unchanged |
| `Logbook.DuplicateSendsExample` | App.tsx:329-359 | two sends of one benchmark give two rows, the later send first |
| `Logbook.DuplicateSendsCatalogExample` | App.tsx:339-347 | the same two sends give one done row in the catalog view |
| `Calendar.CurrentSessions` | App.tsx:151 | a day absent from the schedule reads as the empty list |
| `Calendar.ArrayUnion` | App.tsx:134-138 | the entry is present afterwards and nothing else is added; already present means unchanged, absent means appended; no duplicates are introduced |
| `Calendar.ArrayRemove` | App.tsx:147 | keeps exactly the entries not equal to the removed one; no duplicates are introduced; the empty list stays empty, and a one-entry list loses its entry iff it is the removed one |
| `Calendar.ArrayRemoveConcat` | App.tsx:147 | removing from a concatenation removes from each part, so the kept entries stay in order; with the one-entry case this fixes the result |
| `Calendar.JoinEntry` | App.tsx:127-138 | no entry iff no user is selected, the location is empty, or no person has the id; otherwise `{id, name, location}` of the first person with that id |
| `Calendar.HandleJoin` | App.tsx:126-142 | a guarded-out join changes nothing; otherwise the selected day's list becomes the `arrayUnion` of the old list and the entry (unchanged if present, appended once at the end if not), other days are untouched, and the location resets to "Moonboard" while the chosen user is kept |
| `Calendar.HandleLeave` | App.tsx:144-149 | the selected day's list becomes the `arrayRemove` of the old list, so it loses exactly the entries equal to the removed one and keeps the rest in order; other days and the form are untouched |
| `Calendar.LeaveAbsentIsNoOp` | App.tsx:144-149 | leaving with an entry not in the day's list changes nothing |
| `Calendar.ArrayRemoveOne` | App.tsx:146-148 | in a list without duplicates, removing a present entry shortens it by exactly one |
| `Calendar.JoinIsIdempotent` | App.tsx:133-139 | a second identical join leaves the schedule as the first left it |
| `Calendar.JoinThenLeaveRestores` | App.tsx:126-149 | join then leave with an entry that was not on the day restores that day's list |
| `Calendar.ActionsKeepNoDuplicates` | App.tsx:126-149 | join and leave keep every day's list free of duplicate entries |
| `Accordion.SectionNumber` | App.tsx:432 | each box has a number between 1 and 3 |
| `Accordion.InitiallyOnlyCalendarOpen` | App.tsx:434 | the page opens with box 1 open and every other box closed |
| `Accordion.Toggle` | App.tsx:436-438 | toggling the open box closes it; toggling any other box opens it; no other box is open afterwards |
| `Accordion.AtMostOneOpen` | App.tsx:432-434 | box numbers identify boxes, and no two boxes are open at once |
| `Accordion.OnlyLastClickedCanBeOpen` | App.tsx:436-438 | after any clicks, every box is closed or the last box clicked is open |
| `Accordion.ToggleTwice` | App.tsx:436-438 | toggling one box twice returns to the start iff that box or no box was open |

## Left out

- Store subscriptions (`onSnapshot` for users, benchmarks and schedule): these are external, and each snapshot is a full replacement. The model takes the loaded lists and the schedule map as inputs.
- The real behaviour of the store's `setDoc`, `updateDoc`, `arrayUnion` and `arrayRemove`: this is external code. Their documented semantics are assumed, as described above. Failures and asynchrony are not modelled; a rejected write is treated as no change.
- Generating the next seven days: it depends on the wall clock, `Date` and UTC conversion in `toISOString`. The selected date is an input.
- Locale date formatting (`toLocaleDateString`, `getDate`): this is presentation only.
- Parsing date strings in the logbook comparator: dates are abstract day numbers. An empty date string would be falsy and make the comparator return 0; the model assumes dates are never empty.
- `RaceDefinition`: it is declared but never used, so races over a set of grades are not modelled.
- Floating-point `percent`: it is exact `real` arithmetic here.
- JSX rendering, styling, form input handling and the `AccordionItem` markup.
- `Logbook.DisplayList`: the sort is modelled by its key only on lists that are all dated or all undated. These are the only lists the logbook builds. On a mixed list the app's comparator is inconsistent and its result is engine-defined.
