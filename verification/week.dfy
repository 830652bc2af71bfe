/** The fixed weekly grid the scheduler fills: seven days, three shift kinds,
    and the two staffing constants of the scheduler. */
module Week {

  datatype Day = Monday | Tuesday | Wednesday | Thursday | Friday | Saturday | Sunday

  datatype Shift = Morning | Afternoon | Evening

  /** The days in week order, as the coverage pass visits them. */
  const DaysOfWeek: seq<Day> := [Monday, Tuesday, Wednesday, Thursday, Friday, Saturday, Sunday]

  /** The shift kinds in the fixed order every pass visits them. */
  const Shifts: seq<Shift> := [Morning, Afternoon, Evening]

  /** No employee works more than this many days in one week. */
  const MaxDaysPerEmployee: nat := 5

  /** The staffing floor the coverage pass tries to reach in every cell. */
  const MinEmployeesPerShift: nat := 2

  lemma EveryDayListed(d: Day)
    ensures d in DaysOfWeek
  {
  }

  lemma EveryShiftListed(sh: Shift)
    ensures sh in Shifts
  {
  }

  /** A day order the shuffle may produce: a permutation of the week. */
  predicate IsDayOrder(order: seq<Day>)
  {
    multiset(order) == multiset(DaysOfWeek)
  }

  lemma DayOrderVisitsEveryDay(order: seq<Day>, d: Day)
    requires IsDayOrder(order)
    ensures d in order
  {
    EveryDayListed(d);
    assert d in multiset(DaysOfWeek);
  }

  /** Each day appears once in the week. */
  lemma WeekListsOnce(d: Day)
    ensures multiset(DaysOfWeek)[d] == 1
  {
  }

  /** A permutation of the week has seven entries and lists no day twice. */
  lemma DayOrderDistinct(order: seq<Day>)
    requires IsDayOrder(order)
    ensures |order| == |DaysOfWeek|
    ensures forall a, b :: 0 <= a < b < |order| ==> order[a] != order[b]
  {
    assert |multiset(order)| == |multiset(DaysOfWeek)|;
    forall a, b | 0 <= a < b < |order|
      ensures order[a] != order[b]
    {
      var x := order[b];
      WeekListsOnce(x);
      assert order == order[..b] + order[b..];
      assert multiset(order)[x] == multiset(order[..b])[x] + multiset(order[b..])[x];
      assert order[b..][0] == x;
      assert order[a] == order[..b][a];
    }
  }

  /** A day the shuffle puts after the first five (sixth or seventh) is not
      among its first five. */
  lemma LateDayMissesFirstFive(order: seq<Day>, j: nat)
    requires IsDayOrder(order) && MaxDaysPerEmployee <= j < |order|
    ensures order[j] !in order[..MaxDaysPerEmployee]
  {
    DayOrderDistinct(order);
    forall a | 0 <= a < MaxDaysPerEmployee
      ensures order[..MaxDaysPerEmployee][a] != order[j]
    {
    }
  }
}
