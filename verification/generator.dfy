/** `generateSchedule` without its rendering: reset the roster and the
    table, run preference satisfaction, then coverage repair. */
module Generator {
  import opened Week
  import opened Roster
  import opened Scheduling
  import opened Preference
  import opened Coverage

  /** What a whole run guarantees, for every choice of shuffles and draws:
      - the table and the records agree, nobody works two shifts of one day,
        and the days an employee appears on number its `daysWorked`, at most
        the cap;
      - the roster's names and preferences are unchanged;
      - every cell reached the floor, or no one was left who was free that
        day and under the cap;
      - everyone with at least one preference works exactly the cap, on its
        first choice, on the first five days of the rank-0 shuffle and on no
        other day; repair only ever places employees with no preferences. */
  method GenerateSchedule(employees: seq<Employee>, orders: seq<seq<Day>>, draw: nat -> nat)
    returns (r: State)
    requires ValidShuffles(orders)
    ensures Consistent(r)
    ensures SameProfiles(r.employees, employees)
    ensures forall i, d: Day, sh1: Shift, sh2: Shift ::
              i in r.schedule[d][sh1] && i in r.schedule[d][sh2] ==> sh1 == sh2
    ensures forall i :: 0 <= i < |r.employees| ==>
              |DaysScheduled(r.schedule, i)| == r.employees[i].daysWorked <= MaxDaysPerEmployee
    ensures forall d: Day, sh: Shift :: Covered(r, d, sh)
    ensures forall i :: 0 <= i < |employees| && |employees[i].preferences| > 0 ==>
              r.employees[i].daysWorked == MaxDaysPerEmployee
    ensures forall i, d: Day, sh: Shift :: 0 <= i < |employees| && |employees[i].preferences| > 0 ==>
              (i in r.schedule[d][sh] <==> d in orders[0][..MaxDaysPerEmployee] && sh == employees[i].preferences[0])
    ensures forall d: Day, sh: Shift, i :: i in r.schedule[d][sh] ==>
              i < |employees| && (|employees[i].preferences| == 0 || employees[i].preferences[0] == sh)
  {
    var start := InitialState(employees);
    var preferred := AssignShiftsByPreference(start, orders);
    r := EnsureMinimumCoverage(preferred, draw);
    AllBookingsMatchDaysWorked(r);
    PreferringEmployeesWorkMaxDays(employees, start, preferred, r);
    FirstChoiceCells(employees, orders, start, preferred, r);
    EntriesRanked(employees, start, preferred, r);
  }

  lemma AllBookingsMatchDaysWorked(r: State)
    requires Consistent(r)
    ensures forall i, d: Day, sh1: Shift, sh2: Shift ::
              i in r.schedule[d][sh1] && i in r.schedule[d][sh2] ==> sh1 == sh2
    ensures forall i :: 0 <= i < |r.employees| ==>
              |DaysScheduled(r.schedule, i)| == r.employees[i].daysWorked <= MaxDaysPerEmployee
  {
    forall i, d: Day, sh1: Shift, sh2: Shift | i in r.schedule[d][sh1] && i in r.schedule[d][sh2]
      ensures sh1 == sh2
    {
      BookingsMatchDaysWorked(r, i);
    }
    forall i | 0 <= i < |r.employees|
      ensures |DaysScheduled(r.schedule, i)| == r.employees[i].daysWorked <= MaxDaysPerEmployee
    {
      BookingsMatchDaysWorked(r, i);
    }
  }

  lemma PreferringEmployeesWorkMaxDays(employees: seq<Employee>, start: State, preferred: State, r: State)
    requires SameProfiles(start.employees, employees)
    requires Consistent(r) && Extends(start, preferred) && Extends(preferred, r)
    requires forall i, d: Day :: 0 <= i < |start.employees| && |start.employees[i].preferences| > 0 ==>
               !Available(preferred.employees[i], d)
    ensures forall i :: 0 <= i < |employees| && |employees[i].preferences| > 0 ==>
              r.employees[i].daysWorked == MaxDaysPerEmployee
  {
    forall i | 0 <= i < |employees| && |employees[i].preferences| > 0
      ensures r.employees[i].daysWorked == MaxDaysPerEmployee
    {
      forall d: Day
        ensures !Available(r.employees[i], d)
      {
        StaysUnavailable(preferred, r, i, d);
      }
      SaturatedWorksMaxDays(r, i);
    }
  }

  /** Entries placed by preference satisfaction into an empty table rank
      their shift kind; entries placed by repair were free, so they belong
      to employees with no preferences. */
  lemma EntriesRanked(employees: seq<Employee>, start: State, preferred: State, r: State)
    requires SameProfiles(start.employees, employees)
    requires Extends(start, preferred) && Extends(preferred, r)
    requires forall d: Day, sh: Shift :: start.schedule[d][sh] == []
    requires AddedAt(start, preferred, 0) && AddedWereAvailable(preferred, r)
    requires forall i, d: Day :: 0 <= i < |start.employees| && |start.employees[i].preferences| > 0 ==>
               !Available(preferred.employees[i], d)
    ensures forall d: Day, sh: Shift, i :: i in r.schedule[d][sh] ==>
              i < |employees| && (|employees[i].preferences| == 0 || employees[i].preferences[0] == sh)
  {
    forall d: Day, sh: Shift, i | i in r.schedule[d][sh]
      ensures i < |employees| && (|employees[i].preferences| == 0 || employees[i].preferences[0] == sh)
    {
      var m :| 0 <= m < |r.schedule[d][sh]| && r.schedule[d][sh][m] == i;
      if m < |preferred.schedule[d][sh]| {
        assert preferred.schedule[d][sh][m] == i;
        assert PrefersAt(preferred.employees[i], 0, sh);
        assert EmployeeExtends(start.employees[i], preferred.employees[i]);
      } else {
        assert Available(preferred.employees[i], d);
        assert EmployeeExtends(start.employees[i], preferred.employees[i]);
      }
    }
  }

  /** Repair never places an employee who is booked or at the cap on every
      day, so such an employee's cells are the same before and after it. */
  lemma RepairSkipsSaturated(preferred: State, r: State, i: nat)
    requires Extends(preferred, r) && AddedWereAvailable(preferred, r)
    requires i < |preferred.employees| && forall d: Day :: !Available(preferred.employees[i], d)
    ensures forall d: Day, sh: Shift :: i in r.schedule[d][sh] <==> i in preferred.schedule[d][sh]
  {
    forall d: Day, sh: Shift
      ensures i in r.schedule[d][sh] <==> i in preferred.schedule[d][sh]
    {
      var p, q := preferred.schedule[d][sh], r.schedule[d][sh];
      assert p == q[..|p|];
      if i in q {
        var m :| 0 <= m < |q| && q[m] == i;
        var e := preferred.employees[i];
        assert !Available(e, d);
        assert m < |p|;
        assert q[m] == p[m];
      }
    }
  }

  /** After a whole run, an employee with a preference sits exactly in its
      first choice's cells on the first five days of the rank-0 shuffle. */
  lemma FirstChoiceCells(employees: seq<Employee>, orders: seq<seq<Day>>, start: State, preferred: State, r: State)
    requires ValidShuffles(orders)
    requires SameProfiles(start.employees, employees)
    requires forall i :: 0 <= i < |start.employees| ==>
               start.employees[i].daysWorked == 0 && start.employees[i].assignedShifts == map[]
    requires Extends(start, preferred) && Consistent(preferred)
    requires Extends(preferred, r) && AddedWereAvailable(preferred, r)
    requires forall i :: 0 <= i < |start.employees| ==> preferred.employees[i] == BookDays(start.employees[i], 0, orders[0])
    requires forall i, d: Day :: 0 <= i < |start.employees| && |start.employees[i].preferences| > 0 ==>
               !Available(preferred.employees[i], d)
    ensures forall i, d: Day, sh: Shift :: 0 <= i < |employees| && |employees[i].preferences| > 0 ==>
              (i in r.schedule[d][sh] <==> d in orders[0][..MaxDaysPerEmployee] && sh == employees[i].preferences[0])
  {
    forall i | 0 <= i < |employees| && |employees[i].preferences| > 0
      ensures forall d: Day, sh: Shift ::
                i in r.schedule[d][sh] <==> d in orders[0][..MaxDaysPerEmployee] && sh == employees[i].preferences[0]
    {
      assert IsDayOrder(orders[0]);
      EmployeeFirstChoiceCells(preferred, r, start.employees[i], orders[0], i);
    }
  }

  lemma EmployeeFirstChoiceCells(preferred: State, r: State, e: Employee, order: seq<Day>, i: nat)
    requires Consistent(preferred) && Extends(preferred, r) && AddedWereAvailable(preferred, r)
    requires e.assignedShifts == map[] && e.daysWorked == 0 && |e.preferences| > 0 && IsDayOrder(order)
    requires i < |preferred.employees| && preferred.employees[i] == BookDays(e, 0, order)
    requires forall d: Day :: !Available(preferred.employees[i], d)
    ensures forall d: Day, sh: Shift ::
              i in r.schedule[d][sh] <==> d in order[..MaxDaysPerEmployee] && sh == e.preferences[0]
  {
    RepairSkipsSaturated(preferred, r, i);
    FirstChoiceBookings(e, order);
  }

  /** The record rank 0 leaves for a fresh employee with a preference: its
      first choice on the first five days of the shuffle, and nothing else. */
  lemma FirstChoiceBookings(e: Employee, order: seq<Day>)
    requires e.assignedShifts == map[] && e.daysWorked == 0 && |e.preferences| > 0
    requires IsDayOrder(order)
    ensures forall d: Day :: d in BookDays(e, 0, order).assignedShifts <==> d in order[..MaxDaysPerEmployee]
    ensures forall d :: d in BookDays(e, 0, order).assignedShifts ==>
              BookDays(e, 0, order).assignedShifts[d] == e.preferences[0]
  {
    DayOrderDistinct(order);
    BookDaysFromFresh(e, 0, order, |order|);
    assert order[..|order|] == order;
  }

  /** A day that the rank-0 shuffle puts sixth or seventh holds no employee
      with a preference in any cell of a finished run: two employees who both
      rank Morning first are not on Monday Morning when Monday comes sixth. */
  lemma LateDayHoldsNoPreferrers(employees: seq<Employee>, orders: seq<seq<Day>>, r: State, j: nat)
    requires ValidShuffles(orders) && MaxDaysPerEmployee <= j < |orders[0]| && Total(r.schedule)
    requires forall i, d: Day, sh: Shift :: 0 <= i < |employees| && |employees[i].preferences| > 0 ==>
               (i in r.schedule[d][sh] <==> d in orders[0][..MaxDaysPerEmployee] && sh == employees[i].preferences[0])
    ensures forall i, sh: Shift :: 0 <= i < |employees| && |employees[i].preferences| > 0 ==>
              i !in r.schedule[orders[0][j]][sh]
  {
    assert IsDayOrder(orders[0]);
    LateDayMissesFirstFive(orders[0], j);
  }
}
