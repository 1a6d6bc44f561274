# Smart irrigation dashboard: schedule windows and watering status

This project models the scheduling logic of a browser dashboard for a
smart-irrigation system, and proves properties of that model in Dafny.

- **The schedule page** (`src/pages/Schedule.tsx`) lets the user build an
  irrigation schedule. A schedule has a soil type, a vegetation, a start and
  end date, and a list of hour windows `[startHour, endHour)`. The page checks
  every change of a window's hour, checks the form on submit, and updates the
  shared schedule collection optimistically. That means an insert under a
  `temp-` id, sorted newest first, then either the swap to the id the store
  assigned or a rollback. Deletes are applied at once.
- **The dashboard** (`src/pages/Home.tsx`) expands the schedules that have not
  ended into a timeline of `(date, hour)` points sorted by date and hour. It
  decides whether the system is "watering" now. It clamps the water level,
  humidity and soil moisture of each sensor reading into `[0, 100]` and passes
  the temperature through, keeping the previous reading when a value is NaN.

Modules, one per file:

- `IsoDates` (`iso_dates.dfy`): JavaScript string order on ISO-8601 strings,
  and `split('T')[0]`.
- `Sorting` (`sorting.dfy`): the stable comparator sort of `Array.prototype.sort`,
  and `filter`.
- `Schedules` (`schedules.dfy`): hours, windows, schedules, the half-open
  overlap test, the form invariant, and `isScheduleActive`.
- `SchedulePage` (`schedule_page.dfy`): the window-edit validator, submission
  checks, collection updates, and the page state as a class `Page`.
- `HomePage` (`home_page.dfy`): timeline expansion, watering status, sensor
  processing.

An hour field is `Empty` (the blank option, `''`) or `At(n)`. Where the
dashboard converts a stored hour with `Number`, an empty hour reads as 0
(`HourNumber`). Instants and dates are ISO-8601 strings, as the date picker
stores them (`toISOString()`), compared in JavaScript's string order. The
current instant, the local hour, the temporary id's clock digits and the
store's outcome are parameters.

## Model

| member | source | states |
|---|---|---|
| `IsoDates.DatePart` | src/pages/Home.tsx:187-191 | `split('T')[0]` is the prefix of the string before its first `'T'`, or the whole string when it has none |
| `IsoDates.LexLeTotal` | src/pages/Home.tsx:194 | any two date strings are comparable with `<=` |
| `IsoDates.LexLeTransitive` | src/pages/Home.tsx:194 | string `<=` is transitive |
| `IsoDates.LexLeAntisymmetric` | src/pages/Home.tsx:175-176 | strings that are `<=` each other are equal (date compare returns 0 only on equal dates) |
| `Sorting.SortBy` | src/pages/Schedule.tsx:239 | the comparator sort returns a permutation of its input that is sorted by the comparator's order |
| `Sorting.Keep` | src/pages/Schedule.tsx:279 | `filter` keeps each element satisfying the predicate exactly as often as it occurs, and drops every other |
| `Sorting.KeepKeepsSorted` | src/pages/Schedule.tsx:286 | filtering a sorted list leaves it sorted |
| `Schedules.OverlapsIffSharedHour` | src/pages/Schedule.tsx:148-151 | for proper ranges, `start < otherEnd && end > otherStart` holds exactly when the windows share an hour; touching windows do not overlap |
| `Schedules.IsScheduleActive` | src/pages/Schedule.tsx:302-306 | a schedule is active at instant `now` exactly when `now <= endDate`; the dashboard's filter at src/pages/Home.tsx:154 is the same test |
| `Schedules.ActiveAtLaterMeansActiveEarlier` | src/pages/Schedule.tsx:302-306 | a schedule active (`now <= endDate`) at some instant is active at every earlier instant |
| `SchedulePage.HasOverlap` | src/pages/Schedule.tsx:130-152 | the scan is true exactly when some window at another index is fully set and overlaps the edited range; the edited index is never compared with itself |
| `SchedulePage.EditWindows` | src/pages/Schedule.tsx:99-164 | an edit leaving the window partly unset is always accepted; a full edit is refused as invalid range exactly when `end <= start`, as overlap exactly when a sibling conflicts, and accepted otherwise; an accepted edit keeps the length and replaces only the edited field of entry `index` |
| `SchedulePage.EditKeepsWellFormed` | src/pages/Schedule.tsx:99-164 | every accepted edit keeps "each fully set window is a proper range, and fully set windows are pairwise non-overlapping" |
| `SchedulePage.EditIdempotent` | src/pages/Schedule.tsx:99-164 | applying an accepted edit a second time gives the same window list |
| `SchedulePage.TouchingWindowAccepted` | src/pages/Schedule.tsx:148-151 | setting a window to `[12,18)` beside `[6,12)` is accepted |
| `SchedulePage.EndAtStartRefused` | src/pages/Schedule.tsx:120-123 | setting the end hour of `[6,9)` to 6 is refused as an invalid range |
| `SchedulePage.RemoveAt` | src/pages/Schedule.tsx:90-91 | `splice(index, 1)` removes exactly entry `index` and keeps the order of the rest |
| `SchedulePage.RemoveKeepsWellFormed` | src/pages/Schedule.tsx:87-97 | removing a window keeps the form invariant |
| `SchedulePage.AppendEmptyKeepsWellFormed` | src/pages/Schedule.tsx:74-85 | appending an empty window keeps the form invariant |
| `SchedulePage.ValidateForm` | src/pages/Schedule.tsx:197-225 | submission passes exactly when soil type, vegetation and both dates are chosen, there is a window, and every window has both hours with `start < end`; otherwise it names the first failing check, and for windows the first window that is not ready |
| `SchedulePage.FirstBadWindowIsUnique` | src/pages/Schedule.tsx:215-225 | only the first window that is not ready can be the one the walk stops at |
| `SchedulePage.SubmittedWindowsDisjoint` | src/pages/Schedule.tsx:198-225 | a form kept by accepted edits that passes the checks holds only proper, pairwise disjoint windows |
| `SchedulePage.NewerOrSameIsTotalPreorder` | src/pages/Schedule.tsx:239 | the newest-first comparator on `createdAt` is total and transitive |
| `SchedulePage.InsertOptimistic` | src/pages/Schedule.tsx:237-240 | after the optimistic insert the collection holds the old schedules plus the new one, sorted by `createdAt` descending |
| `SchedulePage.WithRealId` | src/pages/Schedule.tsx:264-268 | the id swap changes only entries whose id is the temporary id, and in them only the id |
| `SchedulePage.WithoutTempIds` | src/pages/Schedule.tsx:279 | the rollback removes every schedule whose id starts with `temp-` and keeps every other, with its multiplicity |
| `SchedulePage.WithoutId` | src/pages/Schedule.tsx:286 | the delete removes exactly the schedules with that id |
| `SchedulePage.UpdatesKeepNewestFirst` | src/pages/Schedule.tsx:264-286 | the id swap, the rollback and the delete keep a newest-first collection newest first |
| `SchedulePage.FailedDeleteLosesSchedule` | src/pages/Schedule.tsx:294-299 | after a delete whose store call fails, the deleted schedule is still absent and the collection differs from before |
| `SchedulePage.Page.constructor` | src/pages/Schedule.tsx:61-72 | the page opens with an empty form holding one empty window |
| `SchedulePage.Page.HandleInputChange` | src/pages/Schedule.tsx:170-176 | choosing a soil type or vegetation sets that field only |
| `SchedulePage.Page.HandleDateChange` | src/pages/Schedule.tsx:178-191 | picking a date stores its ISO string; clearing it stores `''` |
| `SchedulePage.Page.AddIrrigationSchedule` | src/pages/Schedule.tsx:74-85 | appends one empty window; nothing else changes |
| `SchedulePage.Page.RemoveIrrigationSchedule` | src/pages/Schedule.tsx:87-97 | no change when one window remains, otherwise removes exactly window `index` |
| `SchedulePage.Page.HandleScheduleChange` | src/pages/Schedule.tsx:99-164 | the form takes the validator's result when it accepts, and is left unchanged, with the reason reported, when it refuses; the form invariant is kept |
| `SchedulePage.Page.HandleSubmit` | src/pages/Schedule.tsx:193-251 | a form that fails the checks leaves everything unchanged; otherwise the new schedule under `temp-` + clock is added, the collection is sorted newest first, and the form is reset |
| `SchedulePage.Page.ConfirmCreate` | src/pages/Schedule.tsx:263-269 | the collection becomes the id swap of the old one |
| `SchedulePage.Page.RollbackCreate` | src/pages/Schedule.tsx:275-280 | the collection becomes the old one without its `temp-` schedules |
| `SchedulePage.Page.DeleteSchedule` | src/pages/Schedule.tsx:283-300 | the collection loses the schedules with the id, whether or not the store call fails |
| `SchedulePage.Page.DeleteScheduleWithRollback` | src/pages/Schedule.tsx:294-299 | corrected delete: a failed store call leaves the collection as it was |
| `HomePage.HourPoints` | src/pages/Home.tsx:160-168 | a window yields exactly the hours `start, ..., end - 1`, `max(0, end - start)` points, in order |
| `HomePage.Generated` | src/pages/Home.tsx:149-171 | the reference definition of the points pushed before sorting: schedule after schedule, the window points of each schedule with `now <= endDate`, nothing for an ended one |
| `HomePage.WindowPointsMembers` | src/pages/Home.tsx:155-168 | the points of a schedule are exactly its windows' hours, each stamped with the schedule's start date part |
| `HomePage.GeneratedMembers` | src/pages/Home.tsx:149-171 | a point is generated exactly when some schedule with `now <= endDate` has a window covering its hour, and it carries that schedule's start date part, id, soil type and vegetation |
| `HomePage.EndedSchedulesGiveNoPoints` | src/pages/Home.tsx:153-154 | schedules that have all ended yield no points |
| `HomePage.SingleWindowTimeline` | src/pages/Home.tsx:155-168 | a schedule with the single window `[start, end)` yields the hours `start` to `end - 1`, in order, all on its start date part (for `[6,9)`: hours 6, 7, 8) |
| `HomePage.PointLeIsTotalPreorder` | src/pages/Home.tsx:174-178 | the date-then-hour comparator is total and transitive |
| `HomePage.SchedulePoints` | src/pages/Home.tsx:155-169 | the nested window and hour loops push exactly the schedule's window points, in order |
| `HomePage.ProcessSchedulesData` | src/pages/Home.tsx:145-181 | the timeline is a permutation of the generated points, sorted ascending by date string and then by hour |
| `HomePage.AnyWindowHasHour` | src/pages/Home.tsx:196-200 | true exactly when some window has `Number(start) <= hour < Number(end)` |
| `HomePage.IsWatering` | src/pages/Home.tsx:183-206 | watering exactly when some schedule has `startDate <= today <= endDate` on date parts, and one of its windows covers the current hour |
| `HomePage.SingleWindowWatering` | src/pages/Home.tsx:194-200 | for a schedule in range with window `[start, end)`: watering exactly at the hours `start <= h < end`, and not at `end` |
| `HomePage.NoSchedulesNoWatering` | src/pages/Home.tsx:189-203 | an empty schedule list is never watering |
| `HomePage.Clamp` | src/pages/Home.tsx:77-80 | `Math.min(Math.max(0, x), 100)` is NaN exactly for NaN, otherwise lies in `[0, 100]`, leaves in-range values unchanged, and sends values below 0 to 0 and above 100 to 100 |
| `HomePage.NextSensorData` | src/pages/Home.tsx:76-87 | a payload with a NaN value leaves the previous reading unchanged; otherwise each of the three percentages is its `Clamp` (in `[0, 100]`, in-range ones unchanged, below 0 becoming 0, above 100 becoming 100), and the temperature passes through |

## Left out

- Firestore I/O (`addDoc`, `deleteDoc`, `getDocs`) is left out. A store call appears only as its outcome. `HandleSubmit` returns the temporary id, then `ConfirmCreate` (success, with the new id) or `RollbackCreate` (failure) follows. `DeleteSchedule` takes a `storeFailed` flag.
- After a successful create (src/pages/Schedule.tsx:272) or a successful delete (src/pages/Schedule.tsx:293), the page calls `refreshSchedules()`. That reloads the whole collection from the store, in the store's order rather than newest first. The model stops at the state update before that reload. So `ConfirmCreate`, `DeleteSchedule` and `UpdatesKeepNewestFirst` describe the collection only until the reload replaces it.
- `src/contexts/ScheduleContext.tsx` is not part of this model. It fetches and holds the collection, and `Page.schedules` stands for it.
- The 5-second sensor poll, the one-minute status timer and the HTTP fetch are left out. So is the JSON-to-number conversion `Number(data.x)`. `NextSensorData` takes the converted numbers.
- Time zones are not modelled. The source takes the date from UTC (`toISOString`) and the hour from local time (`getHours`). Both are parameters here: `nowIso` and `currentHour`.
- Date parsing is not modelled. `new Date(s)` is assumed to round-trip the canonical ISO strings the date picker stores. So `now <= new Date(endDate)` is compared as strings, and `new Date(startDate).toISOString().split('T')[0]` is `DatePart(startDate)`. An invalid date string (which would make `toISOString` throw) is not modelled.
- `localeCompare` on the dates is modelled as code-point order. The two agree on ISO dates of one fixed format.
- `parseInt` of the blank hour option gives NaN in the source, not `''`. NaN hours are not modelled; the blank choice is `Empty`.
- Floating-point rounding is not modelled. Sensor values are exact reals, plus NaN and the two infinities.
- Rendering, toasts, colour and icon maps, and the other pages and files are left out: `Layout.tsx`, `App.tsx`, `AboutUs.tsx`, `Settings.tsx`, `firebase.ts`. So are the Python suggestion service and the model-training script.
- Sorting.SortBy: does not state that the sort is stable. The insertion sort keeps ties in arrival order, as `Array.prototype.sort` does, but no contract says so. It also sorts a sequence, not the array in place.
- SchedulePage.Page.RemoveIrrigationSchedule: requires the index to be in range. The page only offers removal of existing windows; `splice` past the end, a no-op, is not modelled.
- SchedulePage.Page.HandleSubmit: runs the checks, the optimistic insert and the reset as one step. The other updates React could interleave between the awaits are not modelled.

## Findings

| source | as written | input that shows it | evidently intended | confidence | as-written member | corrected member |
|---|---|---|---|---|---|---|
| src/pages/Schedule.tsx:294-299 | on a failed delete, the failure branch sets the collection to a copy of itself | a collection holding a schedule with id `x`; `deleteSchedule(x)` whose store call fails: the schedule stays removed although it still exists in the store | a failed delete puts the collection back as it was before the delete | high, not executed | `SchedulePage.FailedDeleteLosesSchedule` | `SchedulePage.Page.DeleteScheduleWithRollback` |
