# Weekly shift scheduler — a Dafny model

This project models the scheduling core of a small browser app that builds a
one-week staff schedule. It proves properties of that model.

- **The roster.** Each employee has a name and up to three ranked shift-kind
  preferences (Morning, Afternoon, Evening). Each employee also keeps a
  per-run record: the day-to-shift bookings and a count of days worked.
- **The table.** It holds, for each of the seven days and each of the three
  shift kinds, the list of employees on that shift.
- **A run** (`generateSchedule`) does four things in order:
  - it resets the records and empties the table;
  - **preference satisfaction** goes through the ranks 0, 1 and 2. For each
    rank it visits the days in a freshly shuffled order and the shift kinds
    in fixed order. It books everyone who ranks that shift kind at that rank
    and passes the eligibility guard;
  - **coverage repair** goes through the days in week order and the shift
    kinds in fixed order. While a cell holds fewer than two employees, it
    adds a randomly chosen employee who is free that day and under the cap
    of five days;
  - it renders the result, which is not modelled.

The eligibility guard checks three things: the employee is not booked that
day, has worked fewer than five days, and is not already in the cell.

The model is purely functional:

- A run threads a `State` through the steps. The state holds the roster and
  a `map<Day, map<Shift, seq<nat>>>` table.
- Employees are referred to by their roster position. That is how the table
  tells two records apart even when their names coincide.
- Randomness is an input:
  - Preference satisfaction takes one permutation of the week per rank.
  - Coverage repair takes a function `draw`. Its n-th value, taken modulo
    the pool size, picks the n-th employee.

`Scheduling.EveryAvailableEmployeeCanBePicked` shows that this loses
nothing: any employee in the pool can be picked.

Modules:

- `Optional`: the `Option` type, standing in for `null` and for an empty
  dropdown selection.
- `Week`: days, shift kinds, the two constants.
- `Roster`: trimming, de-duplicating preferences, adding, removing and
  resetting employees.
- `Scheduling`: the table, the consistency invariant, the guard, the
  assignment and the available-employee search.
- `Preference`: phase 1.
- `Coverage`: phase 2.
- `Generator`: a whole run.

The central invariant is `Scheduling.Consistent`. It holds four things
together:

- every listed employee exists, and no cell lists anyone twice;
- an employee is in cell (d, sh) exactly when its record maps d to sh;
- `daysWorked` equals the number of booked days;
- `daysWorked` is at most 5.

Both phases keep this invariant. From it the model derives that nobody works
two shifts of one day.

Verifying the whole run shows something about the code that it never states:

- Rank 0 visits all seven days, and the cap (5) is smaller than 7.
- So rank 0 books everyone with at least one preference on its first choice
  on the first five days of the rank-0 shuffle, and on no other day.
- After that, everyone with a preference is booked or at the cap on every
  day. So ranks 1 and 2 leave the state exactly as it was
  (`Preference.LaterRankChangesNothing`), and second and third choices are
  never used.
- So coverage repair only ever places employees with no preferences.

`Generator.GenerateSchedule` states this for every choice of shuffles and
draws. One consequence: two employees who both rank Morning first need not
both be on Monday Morning. If Monday is sixth or seventh in the rank-0
shuffle, both have already reached the 5-day cap, and neither is on Monday at
all (`Generator.LateDayHoldsNoPreferrers`).

## Model

| member | source | states |
|---|---|---|
| Week.DayOrderVisitsEveryDay | script.js:172 | a shuffled copy of the week (a permutation) still visits every day |
| Roster.Trim | script.js:58 | the trimmed name is a slice of the raw name with only whitespace cut from both ends; it has no whitespace at either end, and it is empty exactly when the raw name is all whitespace |
| Roster.CollectPreferences | script.js:65-74 | the list holds exactly the shift kinds selected in some dropdown, with no repeats, ordered by the first dropdown that selected each |
| Roster.PreferencesDetermined | script.js:65-74 | that description fixes the list: any two lists meeting it are equal |
| Roster.AddEmployee | script.js:57-82 | a name that trims to empty is rejected and the roster is unchanged; otherwise exactly one record is appended, holding the trimmed name, the de-duplicated preferences, no bookings and zero days worked, and the earlier records are untouched |
| Roster.RemoveEmployee | script.js:135-136 | exactly one record goes; putting it back at the start position restores the roster; a start past the end removes nothing; as multisets, the result plus the removed record is the old roster |
| Roster.ResetEmployees | script.js:148-152 | every employee keeps its name and preferences and has no bookings and zero days worked |
| Roster.ResetForgetsAssignments | script.js:146-152 | the reset depends only on names and preferences, and resetting twice is the same as once, so nothing from an earlier run carries over |
| Scheduling.EmptySchedule | script.js:25-33 | every (day, shift kind) cell exists and is empty |
| Scheduling.InitialState | script.js:146-152 | a run starts from a consistent state with the same profiles, an empty table and cleared records |
| Scheduling.AssignShift | script.js:217-221 | the employee is appended to the one cell, its record maps the day to the shift kind and counts one more day, and every other cell and record is unchanged |
| Scheduling.CanAssignIsAvailability | script.js:210-214 | in a consistent state the guard holds exactly when the employee is free that day and under the cap, and an employee free that day is in none of that day's cells, so the third test (not already in the cell) never decides anything |
| Scheduling.SameRecordsSameTable | script.js:217-221 | in consistent states the table is determined by the records: a state that only extends another and has the same records has the same table |
| Scheduling.AssignPreservesConsistency | script.js:210-221 | assigning behind the guard keeps the table and the records consistent |
| Scheduling.UnguardedAssignBreaksConsistency | script.js:217-221 | assigning someone already booked that day leaves a record whose day count no longer matches its bookings |
| Scheduling.BookingsMatchDaysWorked | script.js:210-221 | in a consistent state nobody is in two cells of one day, and the days an employee appears on number exactly its `daysWorked`, at most 5 |
| Scheduling.AvailableEmployees | script.js:225-227 | the pool holds exactly the employees free that day and under the cap, in roster order |
| Scheduling.FindAvailableEmployee | script.js:224-235 | nothing exactly when no employee is free that day and under the cap; otherwise an employee who is |
| Scheduling.EveryAvailableEmployeeCanBePicked | script.js:233-234 | every employee in the pool is picked by some draw |
| Scheduling.AssignShrinksPool | script.js:197-203 | booking a pool member strictly shrinks that day's pool, which is why the repair loop ends |
| Preference.PreferenceCandidates | script.js:177-180 | the batch holds exactly the employees who rank that shift kind at that rank and pass the guard, in roster order |
| Preference.AssignPreferredBatch | script.js:175-187 | the cell grows by exactly the batch, no other cell changes, the state stays consistent, and an employee's record is booked on that day and shift kind exactly when it ranks that shift kind at that rank and was free that day |
| Preference.AssignPreferredDay | script.js:174-188 | after one day of one rank, no other day's cells have changed, every added entry ranks its shift kind at that rank, and each employee with a choice at that rank that was free that day is booked on that choice while every other record is unchanged |
| Preference.AssignRank | script.js:170-189 | one rank over a shuffled week walks each employee through the days in shuffled order, booking its choice at that rank whenever it is still free; afterwards everyone with a choice at that rank is booked or at the cap on every day |
| Preference.BookDaysFromFresh | script.js:170-189 | a fresh employee walked through a shuffled week at a rank where it has a choice is booked on that choice on exactly the first five days of the shuffle |
| Preference.LaterRankChangesNothing | script.js:170-190 | once everyone with a preference is booked or at the cap on every day, a later rank leaves the whole state unchanged |
| Preference.AssignShiftsByPreference | script.js:168-191 | phase 1 keeps consistency and only extends the table; every record comes out as rank 0's walk over the first shuffle leaves it; every entry added ranks its shift kind first; afterwards everyone with a preference is booked or at the cap on every day |
| Preference.SaturatedWorksMaxDays | script.js:210-214 | an employee who is booked or at the cap on all seven days works exactly 5 days |
| Coverage.RepairCell | script.js:197-204 | the `while` loop leaves the cell at the floor or the day's pool empty, changes only that cell, never grows it past the floor, and adds only employees who were free |
| Coverage.EnsureMinimumCoverage | script.js:194-207 | afterwards every cell is at the floor or no one is free that day; cells only grow, a grown cell stops at the floor, and every added employee was free that day before the pass |
| Week.LateDayMissesFirstFive | script.js:172 | a day at position six or seven of a shuffled week is not among its first five days |
| Generator.GenerateSchedule | script.js:145-158 | a whole run, for every shuffle and draw: consistent, profiles unchanged, nobody on two shifts of a day, days worked at most 5 and matching the table, every cell covered or unfillable, everyone with a preference working exactly 5 days, in its first choice's cells exactly on the first five days of the rank-0 shuffle, and every entry either its employee's first choice or belonging to an employee with no preferences |
| Generator.PreferringEmployeesWorkMaxDays | script.js:168-207 | everyone with at least one preference ends the run working exactly 5 days |
| Generator.FirstChoiceCells | script.js:168-207 | after a run, an employee with a preference is in a cell exactly when the day is among the first five of the rank-0 shuffle and the shift kind is its first choice |
| Generator.RepairSkipsSaturated | script.js:194-207 | repair never places an employee who is booked or at the cap on every day, so that employee's cells are the same before and after it |
| Generator.EntriesRanked | script.js:168-207 | entries placed by phase 1 are their employee's first choice; entries placed by repair belong to employees with no preferences |
| Generator.LateDayHoldsNoPreferrers | script.js:168-207 | in a finished run, a day the rank-0 shuffle puts sixth or seventh holds no employee with a preference |

## Left out

- Rendering is not modelled: `displaySchedule`, `updateEmployeeList`, the success and error messages and their timers, and the input/schedule view switch. They only touch the DOM.
- `updatePreferenceDropdowns` is not modelled. It only enables and disables dropdown options. The model takes any sequence of selections, so duplicate and out-of-order selections are covered anyway.
- The show/hide gate on the generate button (at least two employees) is not modelled. It is UI state; a run is modelled for any roster, including an empty one.
- The dropdown values are assumed to be the three shift-kind names or the empty option. They become `Option<Shift>`.
- `Math.random` is not modelled as probability. The day shuffles are inputs: any three permutations of the week. This covers everything the comparator-based `sort` can produce, though not the bias of that shuffle. The random pick is an input draw function.
- The app removes an employee by the position captured when its card was drawn. `RemoveEmployee` takes that position as an argument; stale positions between renders are UI behaviour and are not modelled.
- Roster.Trim: strings are sequences of Unicode scalar values here, not UTF-16 code units as in JavaScript. Every code point `trim` removes lies in the Basic Multilingual Plane, so trimming gives the same result; the whitespace set is written out explicitly.
