/** The schedule table and the single-step operations both passes build on:
    the eligibility guard, the three-part assignment, and the search for an
    available employee. Employees are referred to by their position in the
    roster, which is how the table tells two records apart even when their
    names coincide. */
module Scheduling {
  import opened Optional
  import opened Week
  import opened Roster

  /** day -> shift kind -> the employees on that shift, in assignment order. */
  type Schedule = map<Day, map<Shift, seq<nat>>>

  datatype State = State(employees: seq<Employee>, schedule: Schedule)

  /** Every (day, shift kind) cell exists. */
  ghost predicate Total(s: Schedule)
  {
    forall d: Day :: d in s && forall sh: Shift :: sh in s[d]
  }

  ghost predicate NoDuplicates(cell: seq<nat>)
  {
    forall a, b :: 0 <= a < b < |cell| ==> cell[a] != cell[b]
  }

  /** The consistency the scheduler keeps between the table and the
      employees' own records:
      - every listed employee exists, and no cell lists anyone twice;
      - an employee is listed in cell (d, sh) exactly when its record maps
        d to sh, so no one is on two shifts of one day;
      - `daysWorked` counts the record's days and stays within the cap. */
  ghost predicate Consistent(st: State)
  {
    && Total(st.schedule)
    && (forall d: Day, sh: Shift, i :: i in st.schedule[d][sh] ==> i < |st.employees|)
    && (forall d: Day, sh: Shift :: NoDuplicates(st.schedule[d][sh]))
    && (forall d: Day, sh: Shift, i :: 0 <= i < |st.employees| ==>
          (i in st.schedule[d][sh] <==>
             d in st.employees[i].assignedShifts && st.employees[i].assignedShifts[d] == sh))
    && (forall i :: 0 <= i < |st.employees| ==>
          st.employees[i].daysWorked == |st.employees[i].assignedShifts| <= MaxDaysPerEmployee)
  }

  /** The table every run starts from. */
  function EmptySchedule(): (s: Schedule)
    ensures Total(s)
    ensures forall d: Day, sh: Shift :: s[d][sh] == []
  {
    var s := map d | d in DaysOfWeek :: map sh | sh in Shifts :: [];
    assert forall d: Day :: d in s by {
      forall d: Day ensures d in s { EveryDayListed(d); }
    }
    assert forall d: Day, sh: Shift :: sh in s[d] by {
      forall d: Day, sh: Shift ensures sh in s[d] { EveryDayListed(d); EveryShiftListed(sh); }
    }
    s
  }

  /** A run's starting state: the roster reset and the table empty. */
  function InitialState(employees: seq<Employee>): (st: State)
    ensures Consistent(st)
    ensures SameProfiles(st.employees, employees)
    ensures forall d: Day, sh: Shift :: st.schedule[d][sh] == []
    ensures forall i :: 0 <= i < |st.employees| ==>
              st.employees[i].daysWorked == 0 && st.employees[i].assignedShifts == map[]
  {
    State(ResetEmployees(employees), EmptySchedule())
  }

  /** Free on day `d` and under the weekly cap. */
  predicate Available(e: Employee, d: Day)
  {
    d !in e.assignedShifts && e.daysWorked < MaxDaysPerEmployee
  }

  /** The eligibility guard both passes consult before assigning. */
  predicate CanAssign(st: State, i: nat, d: Day, sh: Shift)
    requires Total(st.schedule) && i < |st.employees|
  {
    Available(st.employees[i], d) && i !in st.schedule[d][sh]
  }

  /** In a consistent state the guard's last clause never decides anything:
      an employee free on `d` is in none of `d`'s cells. */
  lemma CanAssignIsAvailability(st: State, i: nat, d: Day, sh: Shift)
    requires Consistent(st) && i < |st.employees|
    ensures CanAssign(st, i, d, sh) <==> Available(st.employees[i], d)
    ensures Available(st.employees[i], d) ==> forall sh': Shift :: i !in st.schedule[d][sh']
  {
  }

  /** The three-part update: list employee `i` in cell (d, sh), record
      d -> sh on the employee, and count one more day worked. Nothing else
      changes. It checks nothing itself. */
  function AssignShift(st: State, i: nat, d: Day, sh: Shift): (r: State)
    requires Total(st.schedule) && i < |st.employees|
    ensures Total(r.schedule)
    ensures r.schedule[d][sh] == st.schedule[d][sh] + [i]
    ensures forall d': Day, sh': Shift :: (d', sh') != (d, sh) ==> r.schedule[d'][sh'] == st.schedule[d'][sh']
    ensures |r.employees| == |st.employees|
    ensures forall j :: 0 <= j < |st.employees| && j != i ==> r.employees[j] == st.employees[j]
    ensures r.employees[i].name == st.employees[i].name
    ensures r.employees[i].preferences == st.employees[i].preferences
    ensures r.employees[i].assignedShifts == st.employees[i].assignedShifts[d := sh]
    ensures r.employees[i].daysWorked == st.employees[i].daysWorked + 1
    ensures r.employees[i] == Booked(st.employees[i], d, sh)
  {
    State(st.employees[i := Booked(st.employees[i], d, sh)],
          st.schedule[d := st.schedule[d][sh := st.schedule[d][sh] + [i]]])
  }

  /** The record half of `assignShift`: day `d` booked on `sh`, one more day
      worked. */
  function Booked(e: Employee, d: Day, sh: Shift): Employee
  {
    e.(assignedShifts := e.assignedShifts[d := sh], daysWorked := e.daysWorked + 1)
  }

  /** Assigning behind the guard keeps the table and the records consistent. */
  lemma AssignPreservesConsistency(st: State, i: nat, d: Day, sh: Shift)
    requires Consistent(st) && i < |st.employees| && CanAssign(st, i, d, sh)
    ensures Consistent(AssignShift(st, i, d, sh))
  {
    var r := AssignShift(st, i, d, sh);
    var e, e' := st.employees[i], r.employees[i];
    assert |e'.assignedShifts| == |e.assignedShifts| + 1 by {
      assert e'.assignedShifts.Keys == e.assignedShifts.Keys + {d};
    }
    AssignKeepsCellsDistinct(st, i, d, sh);
    AssignKeepsCellsMatching(st, i, d, sh);
  }

  lemma AssignKeepsCellsDistinct(st: State, i: nat, d: Day, sh: Shift)
    requires Consistent(st) && i < |st.employees| && CanAssign(st, i, d, sh)
    ensures forall d': Day, sh': Shift :: NoDuplicates(AssignShift(st, i, d, sh).schedule[d'][sh'])
  {
    var r := AssignShift(st, i, d, sh);
    forall d': Day, sh': Shift
      ensures NoDuplicates(r.schedule[d'][sh'])
    {
      if (d', sh') == (d, sh) {
        assert i !in st.schedule[d][sh];
      }
    }
  }

  lemma AssignKeepsCellsMatching(st: State, i: nat, d: Day, sh: Shift)
    requires Consistent(st) && i < |st.employees| && CanAssign(st, i, d, sh)
    ensures var r := AssignShift(st, i, d, sh);
            forall d': Day, sh': Shift, j :: 0 <= j < |r.employees| ==>
              (j in r.schedule[d'][sh'] <==>
                 d' in r.employees[j].assignedShifts && r.employees[j].assignedShifts[d'] == sh')
  {
    var r := AssignShift(st, i, d, sh);
    forall d': Day, sh': Shift, j | 0 <= j < |r.employees|
      ensures j in r.schedule[d'][sh'] <==>
                d' in r.employees[j].assignedShifts && r.employees[j].assignedShifts[d'] == sh'
    {
      if j == i && d' == d {
        assert i in r.schedule[d][sh];
      }
    }
  }

  /** Why the guard matters: assigning an employee already booked on `d`
      overwrites that day in its record while `daysWorked` still grows, so
      the count no longer matches the record. */
  lemma UnguardedAssignBreaksConsistency(st: State, i: nat, d: Day, sh: Shift)
    requires Consistent(st) && i < |st.employees| && d in st.employees[i].assignedShifts
    ensures !Consistent(AssignShift(st, i, d, sh))
  {
    var r := AssignShift(st, i, d, sh);
    assert r.employees[i].assignedShifts.Keys == st.employees[i].assignedShifts.Keys;
    assert r.employees[i].daysWorked != |r.employees[i].assignedShifts|;
  }

  /** The days on which employee `i` appears anywhere in the table. */
  ghost function DaysScheduled(s: Schedule, i: nat): set<Day>
    requires Total(s)
  {
    set d | d in DaysOfWeek && exists sh: Shift :: i in s[d][sh]
  }

  /** In a consistent state nobody is booked twice on one day, and the days
      an employee appears on number exactly its `daysWorked`, which is at
      most the cap. */
  lemma BookingsMatchDaysWorked(st: State, i: nat)
    requires Consistent(st) && i < |st.employees|
    ensures forall d: Day, sh1: Shift, sh2: Shift ::
              i in st.schedule[d][sh1] && i in st.schedule[d][sh2] ==> sh1 == sh2
    ensures |DaysScheduled(st.schedule, i)| == st.employees[i].daysWorked <= MaxDaysPerEmployee
  {
    var m := st.employees[i].assignedShifts;
    forall d: Day
      ensures d in DaysScheduled(st.schedule, i) <==> d in m
    {
      EveryDayListed(d);
      if d in m {
        assert i in st.schedule[d][m[d]];
      }
    }
    assert DaysScheduled(st.schedule, i) == m.Keys;
  }

  lemma PrefixStep<T>(s: seq<T>, k: nat)
    requires k < |s|
    ensures s[..k + 1] == s[..k] + [s[k]]
  {
  }

  lemma AppendAssociates(a: seq<nat>, b: seq<nat>, x: nat)
    ensures a + b + [x] == a + (b + [x])
  {
  }

  /** `Array.prototype.filter` over roster positions: the indices in
      [lo, hi) satisfying `P`, in increasing order. */
  function IndicesWhere(lo: nat, hi: nat, P: nat -> bool): (r: seq<nat>)
    requires lo <= hi
    ensures forall i :: i in r <==> lo <= i < hi && P(i)
    ensures forall a, b :: 0 <= a < b < |r| ==> r[a] < r[b]
    decreases hi - lo
  {
    if lo == hi then []
    else
      var rest := IndicesWhere(lo + 1, hi, P);
      assert forall k :: 0 <= k < |rest| ==> rest[k] in rest;
      if P(lo) then [lo] + rest else rest
  }

  /** Narrowing the filter's condition cannot lengthen its result, and
      excluding one more index that passed shortens it. */
  lemma {:induction false} FilterShrinks(lo: nat, hi: nat, P: nat -> bool, Q: nat -> bool, j: nat)
    requires lo <= hi
    requires forall i :: lo <= i < hi && Q(i) ==> P(i)
    ensures |IndicesWhere(lo, hi, Q)| <= |IndicesWhere(lo, hi, P)|
    ensures lo <= j < hi && P(j) && !Q(j) ==> |IndicesWhere(lo, hi, Q)| < |IndicesWhere(lo, hi, P)|
    decreases hi - lo
  {
    if lo < hi {
      FilterShrinks(lo + 1, hi, P, Q, j);
    }
  }

  /** The filter condition of `findAvailableEmployee`. */
  function FreeOn(st: State, d: Day): nat -> bool
  {
    (i: nat) => i < |st.employees| && Available(st.employees[i], d)
  }

  /** The employees `findAvailableEmployee` chooses among, in roster order. */
  function AvailableEmployees(st: State, d: Day): (pool: seq<nat>)
    ensures forall i: nat :: i in pool <==> i < |st.employees| && Available(st.employees[i], d)
    ensures forall a, b :: 0 <= a < b < |pool| ==> pool[a] < pool[b]
  {
    IndicesWhere(0, |st.employees|, FreeOn(st, d))
  }

  /** No one is free on `d`. */
  ghost predicate NoneAvailable(st: State, d: Day)
  {
    forall i :: 0 <= i < |st.employees| ==> !Available(st.employees[i], d)
  }

  /** `findAvailableEmployee`: nothing exactly when no employee is free on
      `d` and under the cap; otherwise one such employee, the one at
      position `draw` (taken modulo the pool size) of the filtered roster.
      The draw stands in for `Math.floor(Math.random() * n)`. */
  function FindAvailableEmployee(st: State, d: Day, draw: nat): (r: Option<nat>)
    ensures r.None? <==> NoneAvailable(st, d)
    ensures r.Some? ==> r.value < |st.employees| && Available(st.employees[r.value], d)
  {
    var pool := AvailableEmployees(st, d);
    if |pool| == 0 then
      assert forall i :: 0 <= i < |st.employees| ==> i !in pool;
      None
    else
      var i := pool[draw % |pool|];
      assert i in pool;
      Some(i)
  }

  /** The random pick can land on any available employee. */
  lemma EveryAvailableEmployeeCanBePicked(st: State, d: Day, i: nat)
    requires i < |st.employees| && Available(st.employees[i], d)
    ensures exists draw: nat :: FindAvailableEmployee(st, d, draw) == Some(i)
  {
    var pool := AvailableEmployees(st, d);
    assert i in pool;
    var k :| 0 <= k < |pool| && pool[k] == i;
    PickWithinPool(st, d, k);
  }

  /** A draw below the pool size picks the employee at that position. */
  lemma PickWithinPool(st: State, d: Day, k: nat)
    requires k < |AvailableEmployees(st, d)|
    ensures FindAvailableEmployee(st, d, k) == Some(AvailableEmployees(st, d)[k])
  {
    var n := |AvailableEmployees(st, d)|;
    assert k % n == k;
  }

  /** Assigning an available employee on `d` takes it out of `d`'s pool and
      adds no one, so the pool strictly shrinks. */
  lemma AssignShrinksPool(st: State, i: nat, d: Day, sh: Shift)
    requires Total(st.schedule) && i < |st.employees| && Available(st.employees[i], d)
    ensures |AvailableEmployees(AssignShift(st, i, d, sh), d)| < |AvailableEmployees(st, d)|
  {
    var r := AssignShift(st, i, d, sh);
    FilterShrinks(0, |st.employees|, FreeOn(st, d), FreeOn(r, d), i);
  }

  /** `r` is `st` after further assignments: same roster profiles, every
      record only gains days, and every cell only grows at its end. */
  ghost predicate Extends(st: State, r: State)
  {
    && Total(st.schedule) && Total(r.schedule)
    && |r.employees| == |st.employees|
    && (forall i :: 0 <= i < |st.employees| ==> EmployeeExtends(st.employees[i], r.employees[i]))
    && (forall d: Day, sh: Shift :: st.schedule[d][sh] <= r.schedule[d][sh])
  }

  ghost predicate EmployeeExtends(a: Employee, b: Employee)
  {
    && a.name == b.name && a.preferences == b.preferences
    && (forall d :: d in a.assignedShifts ==> d in b.assignedShifts && b.assignedShifts[d] == a.assignedShifts[d])
    && a.daysWorked <= b.daysWorked
  }

  lemma AssignExtends(st: State, i: nat, d: Day, sh: Shift)
    requires Consistent(st) && i < |st.employees| && CanAssign(st, i, d, sh)
    ensures Extends(st, AssignShift(st, i, d, sh))
  {
  }

  lemma ExtendsTransitive(a: State, b: State, c: State)
    requires Extends(a, b) && Extends(b, c)
    ensures Extends(a, c)
  {
    forall d: Day, sh: Shift
      ensures a.schedule[d][sh] <= c.schedule[d][sh]
    {
      var x, y, z := a.schedule[d][sh], b.schedule[d][sh], c.schedule[d][sh];
      assert x == y[..|x|] && y == z[..|y|];
      assert z[..|y|][..|x|] == z[..|x|];
    }
  }

  /** Once an employee is off for `d` (booked that day or at the cap) it
      stays off in every later state. */
  lemma StaysUnavailable(a: State, b: State, i: nat, d: Day)
    requires Extends(a, b) && i < |a.employees| && !Available(a.employees[i], d)
    ensures !Available(b.employees[i], d)
  {
  }

  /** The same fact read backwards: free in a later state means free before. */
  lemma WasAvailable(a: State, b: State, i: nat, d: Day)
    requires Extends(a, b) && i < |a.employees| && Available(b.employees[i], d)
    ensures Available(a.employees[i], d)
  {
  }

  /** A cell that is a prefix of a duplicate-free cell holds none of the
      entries that follow it there. */
  lemma PrefixExcludesRest(p: seq<nat>, q: seq<nat>)
    requires p <= q && NoDuplicates(q)
    ensures |p| < |q| ==> q[|p|] in q && q[|p|] !in p
  {
    if |p| < |q| {
      forall m | 0 <= m < |p|
        ensures p[m] != q[|p|]
      {
        assert p[m] == q[m];
      }
    }
  }

  /** In consistent states the records fix the table: if `b` extends `a`
      and every record is the same, so is every cell. */
  lemma SameRecordsSameTable(a: State, b: State)
    requires Consistent(a) && Consistent(b) && Extends(a, b) && a.employees == b.employees
    ensures a == b
  {
    forall d: Day, sh: Shift
      ensures a.schedule[d][sh] == b.schedule[d][sh]
    {
      var p, q := a.schedule[d][sh], b.schedule[d][sh];
      forall x | x in q
        ensures x in p
      {
        assert x < |b.employees|;
        assert d in b.employees[x].assignedShifts && b.employees[x].assignedShifts[d] == sh;
        assert a.employees[x] == b.employees[x];
      }
      PrefixExcludesRest(p, q);
      assert p == q[..|p|];
    }
    forall d: Day
      ensures a.schedule[d] == b.schedule[d]
    {
      assert forall sh: Shift :: sh in a.schedule[d] && sh in b.schedule[d];
    }
    assert forall d: Day :: d in a.schedule && d in b.schedule;
  }
}
