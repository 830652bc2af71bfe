/** Phase 1, preference satisfaction: for each rank (first choices first),
    visit the days in a shuffled order and the shift kinds in fixed order,
    and assign everyone who ranks that shift kind at that rank and passes
    the eligibility guard. The shuffle is an input: one permutation of the
    week per rank. */
module Preference {
  import opened Week
  import opened Roster
  import opened Scheduling

  /** `employee.preferences[rank] === shift`; a rank past the end of the
      list reads `undefined` and matches nothing. */
  predicate PrefersAt(e: Employee, rank: nat, sh: Shift)
  {
    rank < |e.preferences| && e.preferences[rank] == sh
  }

  /** The filter condition of the batch for (rank, d, sh). */
  function CandidateFilter(st: State, rank: nat, d: Day, sh: Shift): nat -> bool
    requires Total(st.schedule)
  {
    (i: nat) => i < |st.employees| && PrefersAt(st.employees[i], rank, sh) && CanAssign(st, i, d, sh)
  }

  /** The employees who rank `sh` at `rank` and may take (d, sh), in
      roster order. */
  function PreferenceCandidates(st: State, rank: nat, d: Day, sh: Shift): (r: seq<nat>)
    requires Total(st.schedule)
    ensures forall i: nat :: i in r <==>
              i < |st.employees| && PrefersAt(st.employees[i], rank, sh) && CanAssign(st, i, d, sh)
    ensures forall a, b :: 0 <= a < b < |r| ==> r[a] < r[b]
  {
    IndicesWhere(0, |st.employees|, CandidateFilter(st, rank, d, sh))
  }

  /** Every entry added to any cell between `a` and `b` is an employee who
      ranks that cell's shift kind at `rank`. */
  ghost predicate AddedAt(a: State, b: State, rank: nat)
  {
    && Total(a.schedule) && Total(b.schedule)
    && forall d: Day, sh: Shift, m ::
         |a.schedule[d][sh]| <= m < |b.schedule[d][sh]| ==>
           b.schedule[d][sh][m] < |b.employees| && PrefersAt(b.employees[b.schedule[d][sh][m]], rank, sh)
  }

  lemma AddedAtTransitive(a: State, b: State, c: State, rank: nat)
    requires Extends(a, b) && Extends(b, c) && AddedAt(a, b, rank) && AddedAt(b, c, rank)
    ensures AddedAt(a, c, rank)
  {
    forall d: Day, sh: Shift, m | |a.schedule[d][sh]| <= m < |c.schedule[d][sh]|
      ensures c.schedule[d][sh][m] < |c.employees| && PrefersAt(c.employees[c.schedule[d][sh][m]], rank, sh)
    {
      if m < |b.schedule[d][sh]| {
        assert c.schedule[d][sh][m] == b.schedule[d][sh][m];
        assert EmployeeExtends(b.employees[b.schedule[d][sh][m]], c.employees[b.schedule[d][sh][m]]);
      }
    }
  }

  /** Appending employees who all rank `sh` at `rank` to cell (d, sh), and
      changing no other cell, adds only such employees. */
  lemma AppendedCandidatesPreferAt(st: State, r: State, rank: nat, d: Day, sh: Shift, added: seq<nat>)
    requires Extends(st, r)
    requires r.schedule[d][sh] == st.schedule[d][sh] + added
    requires forall d': Day, sh': Shift :: (d', sh') != (d, sh) ==> r.schedule[d'][sh'] == st.schedule[d'][sh']
    requires forall x :: x in added ==> x < |st.employees| && PrefersAt(st.employees[x], rank, sh)
    ensures AddedAt(st, r, rank)
  {
    forall d': Day, sh': Shift, m | |st.schedule[d'][sh']| <= m < |r.schedule[d'][sh']|
      ensures r.schedule[d'][sh'][m] < |r.employees| && PrefersAt(r.employees[r.schedule[d'][sh'][m]], rank, sh')
    {
      assert (d', sh') == (d, sh);
      var x := r.schedule[d][sh][m];
      assert x == added[m - |st.schedule[d][sh]|];
      assert x in added;
      assert EmployeeExtends(st.employees[x], r.employees[x]);
    }
  }

  /** Employee `e`'s record after the batch for (rank, d, sh), by the
      outcome the loop produces. */
  function BatchBooking(e: Employee, rank: nat, d: Day, sh: Shift): Employee
  {
    if PrefersAt(e, rank, sh) && Available(e, d) then Booked(e, d, sh) else e
  }

  /** What the batch loop has done after its first `k` candidates: the cell
      holds them after its old entries, no other cell changed, and exactly
      those employees' records were booked. */
  ghost predicate BatchProgress(st: State, r: State, rank: nat, d: Day, sh: Shift, candidates: seq<nat>, k: nat)
  {
    && Consistent(st) && candidates == PreferenceCandidates(st, rank, d, sh) && k <= |candidates|
    && Consistent(r) && Extends(st, r)
    && r.schedule[d][sh] == st.schedule[d][sh] + candidates[..k]
    && (forall d': Day, sh': Shift :: (d', sh') != (d, sh) ==> r.schedule[d'][sh'] == st.schedule[d'][sh'])
    && (forall i :: 0 <= i < |st.employees| ==>
          r.employees[i] == if i in candidates[..k] then Booked(st.employees[i], d, sh) else st.employees[i])
  }

  lemma BatchStart(st: State, rank: nat, d: Day, sh: Shift)
    requires Consistent(st)
    ensures BatchProgress(st, st, rank, d, sh, PreferenceCandidates(st, rank, d, sh), 0)
  {
    assert st.schedule[d][sh] + [] == st.schedule[d][sh];
  }

  /** The next candidate of the batch loop still passes the guard: it is a
      different employee from those already assigned, so its record is as
      it was when the candidates were chosen. */
  lemma BatchGuard(st: State, r: State, rank: nat, d: Day, sh: Shift, candidates: seq<nat>, k: nat)
    requires BatchProgress(st, r, rank, d, sh, candidates, k) && k < |candidates|
    ensures candidates[k] < |r.employees| && Total(r.schedule)
    ensures CanAssign(r, candidates[k], d, sh)
  {
    var i := candidates[k];
    assert i in candidates;
    assert i !in candidates[..k];
    assert r.employees[i] == st.employees[i];
    CanAssignIsAvailability(st, i, d, sh);
  }

  /** Assigning the next candidate advances the batch loop by one. */
  lemma BatchStep(st: State, r: State, rank: nat, d: Day, sh: Shift, candidates: seq<nat>, k: nat)
    requires BatchProgress(st, r, rank, d, sh, candidates, k) && k < |candidates|
    requires candidates[k] < |r.employees| && Total(r.schedule) && CanAssign(r, candidates[k], d, sh)
    ensures BatchProgress(st, AssignShift(r, candidates[k], d, sh), rank, d, sh, candidates, k + 1)
  {
    var i := candidates[k];
    AssignPreservesConsistency(r, i, d, sh);
    AssignExtends(r, i, d, sh);
    ExtendsTransitive(st, r, AssignShift(r, i, d, sh));
    BatchCellsStep(st, r, d, sh, candidates, k);
    CandidateIsNew(st, rank, d, sh, k);
    BatchRecordsStep(st, r, d, sh, candidates, k);
  }

  lemma CandidateIsNew(st: State, rank: nat, d: Day, sh: Shift, k: nat)
    requires Total(st.schedule) && k < |PreferenceCandidates(st, rank, d, sh)|
    ensures PreferenceCandidates(st, rank, d, sh)[k] !in PreferenceCandidates(st, rank, d, sh)[..k]
  {
    var c := PreferenceCandidates(st, rank, d, sh);
    assert forall a :: 0 <= a < k ==> c[a] < c[k];
  }

  lemma BatchCellsStep(st: State, r: State, d: Day, sh: Shift, candidates: seq<nat>, k: nat)
    requires k < |candidates| && candidates[k] < |r.employees| && Total(st.schedule) && Total(r.schedule)
    requires r.schedule[d][sh] == st.schedule[d][sh] + candidates[..k]
    requires forall d': Day, sh': Shift :: (d', sh') != (d, sh) ==> r.schedule[d'][sh'] == st.schedule[d'][sh']
    ensures AssignShift(r, candidates[k], d, sh).schedule[d][sh] == st.schedule[d][sh] + candidates[..k + 1]
    ensures forall d': Day, sh': Shift :: (d', sh') != (d, sh) ==>
              AssignShift(r, candidates[k], d, sh).schedule[d'][sh'] == st.schedule[d'][sh']
  {
    PrefixStep(candidates, k);
    AppendAssociates(st.schedule[d][sh], candidates[..k], candidates[k]);
  }

  lemma BatchRecordsStep(st: State, r: State, d: Day, sh: Shift, candidates: seq<nat>, k: nat)
    requires k < |candidates| && candidates[k] < |r.employees| && |r.employees| == |st.employees|
    requires Total(r.schedule) && CanAssign(r, candidates[k], d, sh)
    requires forall i :: 0 <= i < |st.employees| ==>
               r.employees[i] == if i in candidates[..k] then Booked(st.employees[i], d, sh) else st.employees[i]
    requires candidates[k] !in candidates[..k]
    ensures forall j :: 0 <= j < |st.employees| ==>
              AssignShift(r, candidates[k], d, sh).employees[j]
                == if j in candidates[..k + 1] then Booked(st.employees[j], d, sh) else st.employees[j]
  {
    var i := candidates[k];
    var r' := AssignShift(r, i, d, sh);
    PrefixStep(candidates, k);
    forall j | 0 <= j < |st.employees|
      ensures r'.employees[j] == if j in candidates[..k + 1] then Booked(st.employees[j], d, sh) else st.employees[j]
    {
      assert j in candidates[..k + 1] <==> j in candidates[..k] || j == i;
    }
  }

  /** After the batch loop: the whole candidate list was appended, every
      entry added ranks `sh` at `rank`, and each record came out as
      `BatchBooking` says. */
  lemma BatchDone(st: State, r: State, rank: nat, d: Day, sh: Shift, candidates: seq<nat>)
    requires BatchProgress(st, r, rank, d, sh, candidates, |candidates|)
    ensures r.schedule[d][sh] == st.schedule[d][sh] + candidates
    ensures AddedAt(st, r, rank)
    ensures forall i :: 0 <= i < |st.employees| ==> r.employees[i] == BatchBooking(st.employees[i], rank, d, sh)
  {
    assert candidates[..|candidates|] == candidates;
    AppendedCandidatesPreferAt(st, r, rank, d, sh, candidates);
    forall i | 0 <= i < |st.employees|
      ensures r.employees[i] == BatchBooking(st.employees[i], rank, d, sh)
    {
      CanAssignIsAvailability(st, i, d, sh);
    }
  }

  /** One (rank, d, sh) batch: appends to cell (d, sh) exactly the
      candidates chosen before the batch, in roster order, and touches no
      other cell. The guard is checked again before each assignment, as
      `assignShiftsByPreference` does; it never fails, since each candidate
      is a different employee. An employee is booked exactly when it ranks
      `sh` at `rank` and was free on `d`. */
  method AssignPreferredBatch(st: State, rank: nat, d: Day, sh: Shift) returns (r: State)
    requires Consistent(st)
    ensures Consistent(r) && Extends(st, r)
    ensures r.schedule[d][sh] == st.schedule[d][sh] + PreferenceCandidates(st, rank, d, sh)
    ensures forall d': Day, sh': Shift :: (d', sh') != (d, sh) ==> r.schedule[d'][sh'] == st.schedule[d'][sh']
    ensures AddedAt(st, r, rank)
    ensures forall i :: 0 <= i < |st.employees| ==> r.employees[i] == BatchBooking(st.employees[i], rank, d, sh)
  {
    var candidates := PreferenceCandidates(st, rank, d, sh);
    BatchStart(st, rank, d, sh);
    r := st;
    for k := 0 to |candidates|
      invariant BatchProgress(st, r, rank, d, sh, candidates, k)
    {
      BatchGuard(st, r, rank, d, sh, candidates, k);
      var i := candidates[k];
      if CanAssign(r, i, d, sh) {
        BatchStep(st, r, rank, d, sh, candidates, k);
        r := AssignShift(r, i, d, sh);
      }
    }
    BatchDone(st, r, rank, d, sh, candidates);
  }

  /** Employee `e`'s record after all three batches of day `d` at `rank`:
      booked on its choice for that rank if it has one and was free on `d`. */
  function DayBooking(e: Employee, rank: nat, d: Day): Employee
  {
    if rank < |e.preferences| && Available(e, d) then Booked(e, d, e.preferences[rank]) else e
  }

  /** The same, after only the batches for the shift kinds in `done`. */
  function PartialDayBooking(e: Employee, rank: nat, d: Day, done: seq<Shift>): Employee
  {
    if rank < |e.preferences| && e.preferences[rank] in done then DayBooking(e, rank, d) else e
  }

  lemma ShiftsDistinct()
    ensures forall a, b :: 0 <= a < b < |Shifts| ==> Shifts[a] != Shifts[b]
  {
  }

  /** One batch of the day loop: the records advance from the shift kinds
      before `Shifts[k]` to those up to it, other days stay as they were, and
      the entries added still rank their shift kind at `rank`. */
  lemma ShiftsStep(st: State, r: State, next: State, rank: nat, d: Day, k: nat)
    requires k < |Shifts| && Extends(st, r) && Extends(r, next)
    requires AddedAt(st, r, rank) && AddedAt(r, next, rank)
    requires forall d': Day, sh: Shift :: d' != d ==> r.schedule[d'][sh] == st.schedule[d'][sh]
    requires forall d': Day, sh': Shift :: (d', sh') != (d, Shifts[k]) ==> next.schedule[d'][sh'] == r.schedule[d'][sh']
    requires forall i :: 0 <= i < |st.employees| ==>
               r.employees[i] == PartialDayBooking(st.employees[i], rank, d, Shifts[..k])
    requires forall i :: 0 <= i < |r.employees| ==> next.employees[i] == BatchBooking(r.employees[i], rank, d, Shifts[k])
    ensures Extends(st, next) && AddedAt(st, next, rank)
    ensures forall d': Day, sh: Shift :: d' != d ==> next.schedule[d'][sh] == st.schedule[d'][sh]
    ensures forall i :: 0 <= i < |st.employees| ==>
              next.employees[i] == PartialDayBooking(st.employees[i], rank, d, Shifts[..k + 1])
  {
    ExtendsTransitive(st, r, next);
    AddedAtTransitive(st, r, next, rank);
    PrefixStep(Shifts, k);
    ShiftsDistinct();
    forall i | 0 <= i < |st.employees|
      ensures next.employees[i] == PartialDayBooking(st.employees[i], rank, d, Shifts[..k + 1])
    {
      var e := st.employees[i];
      if rank < |e.preferences| && e.preferences[rank] in Shifts[..k] {
        var a :| 0 <= a < k && Shifts[a] == e.preferences[rank];
        assert !PrefersAt(r.employees[i], rank, Shifts[k]);
      }
    }
  }

  /** One day of one rank: the three shift kinds in fixed order. Only day
      `d`'s cells change, every entry added ranks its shift kind at `rank`,
      and each employee with a choice at `rank` that was free on `d` is
      booked on it; everyone else's record is unchanged. */
  method AssignPreferredDay(st: State, rank: nat, d: Day) returns (r: State)
    requires Consistent(st)
    ensures Consistent(r) && Extends(st, r)
    ensures AddedAt(st, r, rank)
    ensures forall d': Day, sh: Shift :: d' != d ==> r.schedule[d'][sh] == st.schedule[d'][sh]
    ensures forall i :: 0 <= i < |st.employees| ==> r.employees[i] == DayBooking(st.employees[i], rank, d)
  {
    r := st;
    for k := 0 to |Shifts|
      invariant Consistent(r) && Extends(st, r) && AddedAt(st, r, rank)
      invariant forall d': Day, sh: Shift :: d' != d ==> r.schedule[d'][sh] == st.schedule[d'][sh]
      invariant forall i :: 0 <= i < |st.employees| ==>
                  r.employees[i] == PartialDayBooking(st.employees[i], rank, d, Shifts[..k])
    {
      var next := AssignPreferredBatch(r, rank, d, Shifts[k]);
      ShiftsStep(st, r, next, rank, d, k);
      r := next;
    }
    forall i | 0 <= i < |st.employees|
      ensures r.employees[i] == DayBooking(st.employees[i], rank, d)
    {
      assert Shifts[..|Shifts|] == Shifts;
      if rank < |st.employees[i].preferences| {
        EveryShiftListed(st.employees[i].preferences[rank]);
      }
    }
  }

  /** Employee `e` walked through `days` in order at `rank`: on each day it
      is booked on its choice for that rank if it is still free. */
  function BookDays(e: Employee, rank: nat, days: seq<Day>): Employee
    decreases |days|
  {
    if days == [] then e
    else DayBooking(BookDays(e, rank, days[..|days| - 1]), rank, days[|days| - 1])
  }

  lemma BookDaysStep(e: Employee, rank: nat, order: seq<Day>, j: nat)
    requires j < |order|
    ensures BookDays(e, rank, order[..j + 1]) == DayBooking(BookDays(e, rank, order[..j]), rank, order[j])
  {
    assert order[..j + 1][..j] == order[..j];
  }

  /** Walking through the days never loses a booking or a worked day. */
  lemma DayBookingKeepsUnavailable(e: Employee, rank: nat, d: Day, d': Day)
    requires !Available(e, d')
    ensures !Available(DayBooking(e, rank, d), d')
  {
  }

  /** An employee with a choice at `rank` ends the walk booked or at the cap
      on every day it visited. */
  lemma {:induction false} BookDaysFillsDays(e: Employee, rank: nat, days: seq<Day>, d: Day)
    requires rank < |e.preferences| && d in days
    ensures !Available(BookDays(e, rank, days), d)
    decreases |days|
  {
    var pre := days[..|days| - 1];
    var last := days[|days| - 1];
    assert days == pre + [last];
    assert BookDays(e, rank, pre).preferences == e.preferences by {
      BookDaysKeepsProfile(e, rank, pre);
    }
    if d != last {
      BookDaysFillsDays(e, rank, pre, d);
      DayBookingKeepsUnavailable(BookDays(e, rank, pre), rank, last, d);
    }
  }

  lemma {:induction false} BookDaysKeepsProfile(e: Employee, rank: nat, days: seq<Day>)
    ensures BookDays(e, rank, days).name == e.name
    ensures BookDays(e, rank, days).preferences == e.preferences
    decreases |days|
  {
    if days != [] {
      BookDaysKeepsProfile(e, rank, days[..|days| - 1]);
    }
  }

  /** An employee with no choice at `rank`, or one already booked or at the
      cap on every day, comes out of the walk unchanged. */
  lemma {:induction false} BookDaysIdle(e: Employee, rank: nat, days: seq<Day>)
    requires rank >= |e.preferences| || forall d: Day :: !Available(e, d)
    ensures BookDays(e, rank, days) == e
    decreases |days|
  {
    if days != [] {
      BookDaysIdle(e, rank, days[..|days| - 1]);
    }
  }

  /** `b` is `e` booked on its choice at `rank` on exactly the first `n`
      days of `order`. */
  ghost predicate BookedOnPrefix(b: Employee, e: Employee, rank: nat, order: seq<Day>, n: nat)
    requires rank < |e.preferences| && n <= |order|
  {
    && b.daysWorked == n && b.preferences == e.preferences
    && (forall d :: d in b.assignedShifts <==> d in order[..n])
    && (forall d :: d in b.assignedShifts ==> b.assignedShifts[d] == e.preferences[rank])
  }

  /** Walking a fresh employee with a choice at `rank` through the first `j`
      days of a shuffled week books it on that choice on the first five of
      them, and on no other day. */
  lemma {:induction false} BookDaysFromFresh(e: Employee, rank: nat, order: seq<Day>, j: nat)
    requires e.assignedShifts == map[] && e.daysWorked == 0 && rank < |e.preferences|
    requires j <= |order| && forall a, c :: 0 <= a < c < |order| ==> order[a] != order[c]
    ensures BookedOnPrefix(BookDays(e, rank, order[..j]), e, rank, order,
                           if j < MaxDaysPerEmployee then j else MaxDaysPerEmployee)
  {
    if j == 0 {
      FreshStart(e, rank, order);
    } else {
      BookDaysFromFresh(e, rank, order, j - 1);
      FreshPrefixStep(e, rank, order, j - 1);
    }
  }

  lemma FreshStart(e: Employee, rank: nat, order: seq<Day>)
    requires e.assignedShifts == map[] && e.daysWorked == 0 && rank < |e.preferences|
    ensures BookedOnPrefix(BookDays(e, rank, order[..0]), e, rank, order, 0)
  {
    assert order[..0] == [];
  }

  lemma FreshPrefixStep(e: Employee, rank: nat, order: seq<Day>, j: nat)
    requires rank < |e.preferences| && j < |order|
    requires forall a, c :: 0 <= a < c < |order| ==> order[a] != order[c]
    requires BookedOnPrefix(BookDays(e, rank, order[..j]), e, rank, order,
                            if j < MaxDaysPerEmployee then j else MaxDaysPerEmployee)
    ensures BookedOnPrefix(BookDays(e, rank, order[..j + 1]), e, rank, order,
                           if j + 1 < MaxDaysPerEmployee then j + 1 else MaxDaysPerEmployee)
  {
    BookDaysStep(e, rank, order, j);
    FreshWalkStep(BookDays(e, rank, order[..j]), e, rank, order, j);
  }

  lemma FreshWalkStep(b: Employee, e: Employee, rank: nat, order: seq<Day>, j: nat)
    requires rank < |e.preferences| && j < |order|
    requires forall a, c :: 0 <= a < c < |order| ==> order[a] != order[c]
    requires BookedOnPrefix(b, e, rank, order, if j < MaxDaysPerEmployee then j else MaxDaysPerEmployee)
    ensures BookedOnPrefix(DayBooking(b, rank, order[j]), e, rank, order,
                           if j + 1 < MaxDaysPerEmployee then j + 1 else MaxDaysPerEmployee)
  {
    if j < MaxDaysPerEmployee {
      assert order[j] !in order[..j];
      FreshBookStep(b, e, rank, order, j);
    } else {
      assert b.daysWorked == MaxDaysPerEmployee;
    }
  }

  lemma FreshBookStep(b: Employee, e: Employee, rank: nat, order: seq<Day>, j: nat)
    requires rank < |e.preferences| && j < |order| && j < MaxDaysPerEmployee
    requires order[j] !in order[..j] && BookedOnPrefix(b, e, rank, order, j)
    ensures DayBooking(b, rank, order[j]) == Booked(b, order[j], e.preferences[rank])
    ensures BookedOnPrefix(Booked(b, order[j], e.preferences[rank]), e, rank, order, j + 1)
  {
    PrefixStep(order, j);
    assert Available(b, order[j]);
  }

  /** One day of the rank loop. */
  lemma DaysStep(st: State, r: State, next: State, rank: nat, order: seq<Day>, j: nat)
    requires j < |order| && Extends(st, r) && Extends(r, next)
    requires AddedAt(st, r, rank) && AddedAt(r, next, rank)
    requires forall i :: 0 <= i < |st.employees| ==> r.employees[i] == BookDays(st.employees[i], rank, order[..j])
    requires forall i :: 0 <= i < |r.employees| ==> next.employees[i] == DayBooking(r.employees[i], rank, order[j])
    ensures Extends(st, next) && AddedAt(st, next, rank)
    ensures forall i :: 0 <= i < |st.employees| ==> next.employees[i] == BookDays(st.employees[i], rank, order[..j + 1])
  {
    ExtendsTransitive(st, r, next);
    AddedAtTransitive(st, r, next, rank);
    forall i | 0 <= i < |st.employees|
      ensures next.employees[i] == BookDays(st.employees[i], rank, order[..j + 1])
    {
      BookDaysStep(st.employees[i], rank, order, j);
    }
  }

  /** One rank level over a shuffled week. Each employee is walked through
      the shuffled days at that rank; afterwards everyone with a choice at
      `rank` is, on every day, booked or at the cap. */
  method AssignRank(st: State, rank: nat, order: seq<Day>) returns (r: State)
    requires Consistent(st) && IsDayOrder(order)
    ensures Consistent(r) && Extends(st, r)
    ensures AddedAt(st, r, rank)
    ensures forall i :: 0 <= i < |st.employees| ==> r.employees[i] == BookDays(st.employees[i], rank, order)
    ensures forall i, d: Day :: 0 <= i < |st.employees| && rank < |st.employees[i].preferences| ==>
              !Available(r.employees[i], d)
  {
    r := st;
    for j := 0 to |order|
      invariant Consistent(r) && Extends(st, r) && AddedAt(st, r, rank)
      invariant forall i :: 0 <= i < |st.employees| ==> r.employees[i] == BookDays(st.employees[i], rank, order[..j])
    {
      var next := AssignPreferredDay(r, rank, order[j]);
      DaysStep(st, r, next, rank, order, j);
      r := next;
    }
    assert order[..|order|] == order;
    forall i, d: Day | 0 <= i < |st.employees| && rank < |st.employees[i].preferences|
      ensures !Available(r.employees[i], d)
    {
      DayOrderVisitsEveryDay(order, d);
      BookDaysFillsDays(st.employees[i], rank, order, d);
    }
  }

  /** The shuffles `[...DAYS_OF_WEEK].sort(() => Math.random() - 0.5)`
      produces for the three rank levels: each a permutation of the week. */
  predicate ValidShuffles(orders: seq<seq<Day>>)
  {
    |orders| == 3 && forall r :: 0 <= r < 3 ==> IsDayOrder(orders[r])
  }

  /** Once everyone with a preference is booked or at the cap on every
      day, a later rank level changes nothing at all: its walk leaves every
      record as it was, and in consistent states the records fix the
      table. */
  lemma LaterRankChangesNothing(r: State, next: State, rank: nat, order: seq<Day>)
    requires rank > 0 && Consistent(r) && Consistent(next) && Extends(r, next)
    requires forall i, d: Day :: 0 <= i < |r.employees| && |r.employees[i].preferences| > 0 ==>
               !Available(r.employees[i], d)
    requires forall i :: 0 <= i < |r.employees| ==> next.employees[i] == BookDays(r.employees[i], rank, order)
    ensures next == r
  {
    forall i | 0 <= i < |r.employees|
      ensures next.employees[i] == r.employees[i]
    {
      BookDaysIdle(r.employees[i], rank, order);
    }
    assert next.employees == r.employees;
    SameRecordsSameTable(r, next);
  }

  /** What the rank loop carries once rank 0 is done. */
  ghost predicate FirstRankDone(st: State, r: State, orders: seq<seq<Day>>)
    requires |orders| > 0
  {
    && AddedAt(st, r, 0)
    && |r.employees| == |st.employees|
    && (forall i :: 0 <= i < |st.employees| ==> r.employees[i] == BookDays(st.employees[i], 0, orders[0]))
    && (forall i, d: Day :: 0 <= i < |st.employees| && |st.employees[i].preferences| > 0 ==>
          !Available(r.employees[i], d))
  }

  /** One rank level of the rank loop: rank 0 establishes `FirstRankDone`,
      and every later rank leaves the state exactly as it was. */
  lemma RankStep(st: State, r: State, next: State, rank: nat, orders: seq<seq<Day>>)
    requires ValidShuffles(orders) && rank < 3
    requires Consistent(r) && Consistent(next) && Extends(st, r) && Extends(r, next) && AddedAt(r, next, rank)
    requires rank == 0 ==> r == st
    requires rank > 0 ==> FirstRankDone(st, r, orders)
    requires forall i :: 0 <= i < |r.employees| ==> next.employees[i] == BookDays(r.employees[i], rank, orders[rank])
    requires forall i, d: Day :: 0 <= i < |r.employees| && rank < |r.employees[i].preferences| ==>
               !Available(next.employees[i], d)
    ensures Extends(st, next) && FirstRankDone(st, next, orders)
    ensures rank > 0 ==> next == r
  {
    ExtendsTransitive(st, r, next);
    if rank > 0 {
      forall i, d: Day | 0 <= i < |r.employees| && |r.employees[i].preferences| > 0
        ensures !Available(r.employees[i], d)
      {
        assert EmployeeExtends(st.employees[i], r.employees[i]);
      }
      LaterRankChangesNothing(r, next, rank, orders[rank]);
    }
  }

  /** `assignShiftsByPreference`. Rank 0 walks everyone with a preference
      through the first shuffled week on its first choice; since that visits
      all seven days and the cap is five, everyone with a preference is then
      booked or at the cap on every day, and ranks 1 and 2 change nothing.
      So every entry the phase adds is an employee's first choice. */
  method AssignShiftsByPreference(st: State, orders: seq<seq<Day>>) returns (r: State)
    requires Consistent(st) && ValidShuffles(orders)
    ensures Consistent(r) && Extends(st, r)
    ensures AddedAt(st, r, 0)
    ensures forall i :: 0 <= i < |st.employees| ==> r.employees[i] == BookDays(st.employees[i], 0, orders[0])
    ensures forall i, d: Day :: 0 <= i < |st.employees| && |st.employees[i].preferences| > 0 ==>
              !Available(r.employees[i], d)
  {
    r := st;
    for rank := 0 to 3
      invariant Consistent(r) && Extends(st, r)
      invariant rank == 0 ==> r == st
      invariant rank > 0 ==> FirstRankDone(st, r, orders)
    {
      var next := AssignRank(r, rank, orders[rank]);
      RankStep(st, r, next, rank, orders);
      r := next;
    }
  }

  lemma SubsetCardinality(a: set<Day>, b: set<Day>)
    ensures |b| < |a| ==> !(a <= b)
  {
    if a <= b {
      assert b == a + (b - a);
    }
  }

  /** An employee who is, on every day, booked or at the cap works exactly
      the maximum number of days: seven days exceed the cap, so it cannot be
      booked on all of them. */
  lemma SaturatedWorksMaxDays(st: State, i: nat)
    requires Consistent(st) && i < |st.employees|
    requires forall d: Day :: !Available(st.employees[i], d)
    ensures st.employees[i].daysWorked == MaxDaysPerEmployee
  {
    var m := st.employees[i].assignedShifts;
    var week := {Monday, Tuesday, Wednesday, Thursday, Friday, Saturday, Sunday};
    assert |week| == 7;
    assert |m.Keys| <= MaxDaysPerEmployee;
    SubsetCardinality(week, m.Keys);
    var d :| d in week && d !in m;
    assert !Available(st.employees[i], d);
  }
}
