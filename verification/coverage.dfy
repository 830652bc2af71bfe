/** Phase 2, coverage repair: for each day in week order and each shift kind
    in fixed order, while the cell is below the staffing floor, put in a
    randomly drawn employee who is free that day and under the cap, and give
    up on the cell once there is none. The random draws are an input:
    `draw(n)` is the n-th draw taken. */
module Coverage {
  import opened Week
  import opened Roster
  import opened Scheduling

  /** Cell (d, sh) reached the floor, or no one is left who could fill it. */
  ghost predicate Covered(st: State, d: Day, sh: Shift)
    requires Total(st.schedule)
  {
    |st.schedule[d][sh]| >= MinEmployeesPerShift || NoneAvailable(st, d)
  }

  /** Between `a` and `b`, a cell that grew did not grow past the floor. */
  ghost predicate FilledOnlyToFloor(a: State, b: State)
  {
    && Total(a.schedule) && Total(b.schedule)
    && forall d: Day, sh: Shift ::
         |b.schedule[d][sh]| > |a.schedule[d][sh]| ==> |b.schedule[d][sh]| <= MinEmployeesPerShift
  }

  /** Every entry added between `a` and `b` is an employee that was free on
      that day and under the cap in `a`. */
  ghost predicate AddedWereAvailable(a: State, b: State)
  {
    && Total(a.schedule) && Total(b.schedule)
    && forall d: Day, sh: Shift, m ::
         |a.schedule[d][sh]| <= m < |b.schedule[d][sh]| ==>
           b.schedule[d][sh][m] < |a.employees| && Available(a.employees[b.schedule[d][sh][m]], d)
  }

  lemma CoveredStays(a: State, b: State, d: Day, sh: Shift)
    requires Extends(a, b) && Covered(a, d, sh)
    ensures Covered(b, d, sh)
  {
    if !(|a.schedule[d][sh]| >= MinEmployeesPerShift) {
      forall i | 0 <= i < |b.employees|
        ensures !Available(b.employees[i], d)
      {
        StaysUnavailable(a, b, i, d);
      }
    }
  }

  lemma AddedWereAvailableTransitive(a: State, b: State, c: State)
    requires Extends(a, b) && Extends(b, c) && AddedWereAvailable(a, b) && AddedWereAvailable(b, c)
    ensures AddedWereAvailable(a, c)
  {
    forall d: Day, sh: Shift, m | |a.schedule[d][sh]| <= m < |c.schedule[d][sh]|
      ensures c.schedule[d][sh][m] < |a.employees| && Available(a.employees[c.schedule[d][sh][m]], d)
    {
      var x := c.schedule[d][sh][m];
      if m < |b.schedule[d][sh]| {
        assert x == b.schedule[d][sh][m];
      } else {
        WasAvailable(a, b, x, d);
      }
    }
  }

  /** One pass of the repair loop: the drawn employee is free, assigning it
      keeps every fact the loop carries, and the day's pool shrinks. */
  lemma RepairStep(st: State, r: State, i: nat, d: Day, sh: Shift)
    requires Consistent(st) && Consistent(r) && Extends(st, r)
    requires forall d': Day, sh': Shift :: (d', sh') != (d, sh) ==> r.schedule[d'][sh'] == st.schedule[d'][sh']
    requires |r.schedule[d][sh]| < MinEmployeesPerShift
    requires AddedWereAvailable(st, r)
    requires i < |r.employees| && Available(r.employees[i], d)
    ensures var r' := AssignShift(r, i, d, sh);
            && Consistent(r') && Extends(st, r')
            && (forall d': Day, sh': Shift :: (d', sh') != (d, sh) ==> r'.schedule[d'][sh'] == st.schedule[d'][sh'])
            && (|r'.schedule[d][sh]| > |st.schedule[d][sh]| ==> |r'.schedule[d][sh]| <= MinEmployeesPerShift)
            && AddedWereAvailable(st, r')
            && |AvailableEmployees(r', d)| < |AvailableEmployees(r, d)|
  {
    CanAssignIsAvailability(r, i, d, sh);
    AssignPreservesConsistency(r, i, d, sh);
    AssignExtends(r, i, d, sh);
    var r' := AssignShift(r, i, d, sh);
    ExtendsTransitive(st, r, r');
    AssignShrinksPool(r, i, d, sh);
    WasAvailable(st, r, i, d);
    forall d': Day, sh': Shift, m | |st.schedule[d'][sh']| <= m < |r'.schedule[d'][sh']|
      ensures r'.schedule[d'][sh'][m] < |st.employees| && Available(st.employees[r'.schedule[d'][sh'][m]], d')
    {
      if (d', sh') == (d, sh) && m == |r.schedule[d][sh]| {
        assert r'.schedule[d][sh][m] == i;
      } else {
        assert r'.schedule[d'][sh'][m] == r.schedule[d'][sh'][m];
      }
    }
  }

  /** The `while` loop for one cell: it fills the cell up to the floor from
      the day's pool, one draw per pick, and stops early only when the pool
      is empty. It terminates because each pass takes one employee out of
      that day's pool. Only that cell changes. */
  method RepairCell(st: State, d: Day, sh: Shift, draw: nat -> nat, drawn: nat) returns (r: State, drawn': nat)
    requires Consistent(st)
    ensures Consistent(r) && Extends(st, r)
    ensures Covered(r, d, sh)
    ensures forall d': Day, sh': Shift :: (d', sh') != (d, sh) ==> r.schedule[d'][sh'] == st.schedule[d'][sh']
    ensures |r.schedule[d][sh]| > |st.schedule[d][sh]| ==> |r.schedule[d][sh]| <= MinEmployeesPerShift
    ensures AddedWereAvailable(st, r)
  {
    r, drawn' := st, drawn;
    while |r.schedule[d][sh]| < MinEmployeesPerShift
      invariant Consistent(r) && Extends(st, r)
      invariant forall d': Day, sh': Shift :: (d', sh') != (d, sh) ==> r.schedule[d'][sh'] == st.schedule[d'][sh']
      invariant |r.schedule[d][sh]| > |st.schedule[d][sh]| ==> |r.schedule[d][sh]| <= MinEmployeesPerShift
      invariant AddedWereAvailable(st, r)
      decreases |AvailableEmployees(r, d)|
    {
      var pick := FindAvailableEmployee(r, d, draw(drawn'));
      if pick.None? {
        break;
      }
      RepairStep(st, r, pick.value, d, sh);
      r := AssignShift(r, pick.value, d, sh);
      drawn' := drawn' + 1;
    }
  }

  lemma CellStep(st: State, r: State, next: State, j: nat, k: nat)
    requires j < |DaysOfWeek| && k < |Shifts|
    requires Extends(st, r) && Extends(r, next)
    requires forall d: Day, sh: Shift :: d in DaysOfWeek[..j] ==> Covered(r, d, sh)
    requires forall sh: Shift :: sh in Shifts[..k] ==> Covered(r, DaysOfWeek[j], sh)
    requires Covered(next, DaysOfWeek[j], Shifts[k])
    requires FilledOnlyToFloor(st, r) && AddedWereAvailable(st, r) && AddedWereAvailable(r, next)
    requires forall d': Day, sh': Shift :: (d', sh') != (DaysOfWeek[j], Shifts[k]) ==>
               next.schedule[d'][sh'] == r.schedule[d'][sh']
    requires |next.schedule[DaysOfWeek[j]][Shifts[k]]| > |r.schedule[DaysOfWeek[j]][Shifts[k]]| ==>
               |next.schedule[DaysOfWeek[j]][Shifts[k]]| <= MinEmployeesPerShift
    ensures Extends(st, next)
    ensures forall d: Day, sh: Shift :: d in DaysOfWeek[..j] ==> Covered(next, d, sh)
    ensures forall sh: Shift :: sh in Shifts[..k + 1] ==> Covered(next, DaysOfWeek[j], sh)
    ensures FilledOnlyToFloor(st, next) && AddedWereAvailable(st, next)
  {
    ExtendsTransitive(st, r, next);
    AddedWereAvailableTransitive(st, r, next);
    PrefixStep(Shifts, k);
    forall d: Day, sh: Shift | d in DaysOfWeek[..j] || (d == DaysOfWeek[j] && sh in Shifts[..k])
      ensures Covered(next, d, sh)
    {
      CoveredStays(r, next, d, sh);
    }
  }

  lemma DayDone(st: State, r: State, j: nat)
    requires j < |DaysOfWeek| && Total(r.schedule)
    requires forall d: Day, sh: Shift :: d in DaysOfWeek[..j] ==> Covered(r, d, sh)
    requires forall sh: Shift :: sh in Shifts[..|Shifts|] ==> Covered(r, DaysOfWeek[j], sh)
    ensures forall d: Day, sh: Shift :: d in DaysOfWeek[..j + 1] ==> Covered(r, d, sh)
  {
    PrefixStep(DaysOfWeek, j);
    assert Shifts[..|Shifts|] == Shifts;
    forall sh: Shift
      ensures Covered(r, DaysOfWeek[j], sh)
    {
      EveryShiftListed(sh);
    }
  }

  /** `ensureMinimumCoverage`. Afterwards every cell is at the floor or no
      one is left who is free that day and under the cap; a cell only grows,
      and one that grew stops at the floor; everyone added was free on that
      day before the pass. */
  method EnsureMinimumCoverage(st: State, draw: nat -> nat) returns (r: State)
    requires Consistent(st)
    ensures Consistent(r) && Extends(st, r)
    ensures forall d: Day, sh: Shift :: Covered(r, d, sh)
    ensures FilledOnlyToFloor(st, r)
    ensures AddedWereAvailable(st, r)
  {
    r := st;
    var drawn := 0;
    for j := 0 to |DaysOfWeek|
      invariant Consistent(r) && Extends(st, r)
      invariant forall d: Day, sh: Shift :: d in DaysOfWeek[..j] ==> Covered(r, d, sh)
      invariant FilledOnlyToFloor(st, r) && AddedWereAvailable(st, r)
    {
      for k := 0 to |Shifts|
        invariant Consistent(r) && Extends(st, r)
        invariant forall d: Day, sh: Shift :: d in DaysOfWeek[..j] ==> Covered(r, d, sh)
        invariant forall sh: Shift :: sh in Shifts[..k] ==> Covered(r, DaysOfWeek[j], sh)
        invariant FilledOnlyToFloor(st, r) && AddedWereAvailable(st, r)
      {
        var next;
        next, drawn := RepairCell(r, DaysOfWeek[j], Shifts[k], draw, drawn);
        CellStep(st, r, next, j, k);
        r := next;
      }
      DayDone(st, r, j);
    }
    forall d: Day, sh: Shift
      ensures Covered(r, d, sh)
    {
      EveryDayListed(d);
      assert DaysOfWeek[..|DaysOfWeek|] == DaysOfWeek;
    }
  }
}
