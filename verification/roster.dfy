/** The employee pool: the records the scheduler works on, and the roster
    operations of the input form (adding an employee, removing one, and the
    reset that starts every scheduling run). */
module Roster {
  import opened Optional
  import opened Week

  /** One employee. `assignedShifts` and `daysWorked` are the per-run
      assignment state; `preferences` ranks shift kinds, first choice first. */
  datatype Employee = Employee(
    name: string,
    preferences: seq<Shift>,
    assignedShifts: map<Day, Shift>,
    daysWorked: nat)

  datatype RosterError = EmptyName

  /** The code points JavaScript's `String.prototype.trim` removes:
      WhiteSpace (tab, VT, FF, space, NBSP, BOM and category Zs) and
      LineTerminator (LF, CR, LS, PS). */
  predicate IsTrimmable(c: char)
  {
    var n := c as int;
    || n == 0x09 || n == 0x0A || n == 0x0B || n == 0x0C || n == 0x0D
    || n == 0x20 || n == 0xA0 || n == 0x1680
    || (0x2000 <= n <= 0x200A)
    || n == 0x2028 || n == 0x2029 || n == 0x202F || n == 0x205F
    || n == 0x3000 || n == 0xFEFF
  }

  predicate IsBlank(s: string)
  {
    forall k :: 0 <= k < |s| ==> IsTrimmable(s[k])
  }

  /** Drops leading whitespace: what remains is a suffix of `s` that does not
      start with whitespace, and everything dropped was whitespace. */
  function TrimStart(s: string): (r: string)
    ensures |r| <= |s| && r == s[|s| - |r|..]
    ensures IsBlank(s[..|s| - |r|])
    ensures r == [] || !IsTrimmable(r[0])
    decreases |s|
  {
    if |s| > 0 && IsTrimmable(s[0]) then
      var r := TrimStart(s[1..]);
      assert s[1..][|s| - 1 - |r|..] == s[|s| - |r|..];
      BlankFront(s, |s| - |r|);
      r
    else
      s
  }

  lemma BlankFront(s: string, n: nat)
    requires 0 < n <= |s| && IsTrimmable(s[0]) && IsBlank(s[1..][..n - 1])
    ensures IsBlank(s[..n])
  {
    forall k | 0 < k < n
      ensures IsTrimmable(s[..n][k])
    {
      assert s[..n][k] == s[1..][..n - 1][k - 1];
    }
  }

  /** Drops trailing whitespace: what remains is a prefix of `s` that does not
      end with whitespace, and everything dropped was whitespace. */
  function TrimEnd(s: string): (r: string)
    ensures |r| <= |s| && r == s[..|r|]
    ensures IsBlank(s[|r|..])
    ensures r == [] || !IsTrimmable(r[|r| - 1])
    decreases |s|
  {
    if |s| > 0 && IsTrimmable(s[|s| - 1]) then
      var r := TrimEnd(s[..|s| - 1]);
      assert s[..|s| - 1][..|r|] == s[..|r|];
      BlankBack(s, |r|);
      r
    else
      s
  }

  lemma BlankBack(s: string, n: nat)
    requires n < |s| && IsTrimmable(s[|s| - 1]) && IsBlank(s[..|s| - 1][n..])
    ensures IsBlank(s[n..])
  {
    forall k | 0 <= k < |s| - 1 - n
      ensures IsTrimmable(s[n..][k])
    {
      assert s[n..][k] == s[..|s| - 1][n..][k];
    }
  }

  /** JavaScript's `trim`: the longest slice of `s` with no whitespace at
      either end; it is empty exactly when `s` is blank. */
  function Trim(s: string): (r: string)
    ensures exists a, b :: 0 <= a <= b <= |s| && r == s[a..b] && IsBlank(s[..a]) && IsBlank(s[b..])
    ensures r == [] || (!IsTrimmable(r[0]) && !IsTrimmable(r[|r| - 1]))
    ensures r == [] <==> IsBlank(s)
  {
    var t := TrimStart(s);
    var r := TrimEnd(t);
    TrimmedSlice(s, t, r);
    assert r == s[|s| - |t|..|s| - |t| + |r|];
    r
  }

  /** Cutting a blank run off the front of `s` (leaving `t`) and then one
      off the back of `t` (leaving `r`) leaves a slice of `s` between two
      blank runs, with non-blank ends; it is empty exactly when `s` is
      blank. */
  lemma TrimmedSlice(s: string, t: string, r: string)
    requires |t| <= |s| && t == s[|s| - |t|..] && IsBlank(s[..|s| - |t|])
    requires t == [] || !IsTrimmable(t[0])
    requires |r| <= |t| && r == t[..|r|] && IsBlank(t[|r|..])
    requires r == [] || !IsTrimmable(r[|r| - 1])
    ensures var a := |s| - |t|;
            && r == s[a..a + |r|] && IsBlank(s[..a]) && IsBlank(s[a + |r|..])
            && (r == [] || (!IsTrimmable(r[0]) && !IsTrimmable(r[|r| - 1])))
            && (r == [] <==> IsBlank(s))
  {
    var a := |s| - |t|;
    assert s[a + |r|..] == t[|r|..];
    if r != [] {
      assert r[0] == t[0] == s[a];
    } else {
      BlankJoin(s, a);
    }
  }

  lemma BlankJoin(s: string, a: nat)
    requires a <= |s| && IsBlank(s[..a]) && IsBlank(s[a..])
    ensures IsBlank(s)
  {
    forall k | 0 <= k < |s|
      ensures IsTrimmable(s[k])
    {
      if k < a {
        assert s[k] == s[..a][k];
      } else {
        assert s[k] == s[a..][k - a];
      }
    }
  }

  /** The position of the first occurrence of `x` in `sel`. */
  function FirstIndex(sel: seq<Option<Shift>>, x: Option<Shift>): (k: nat)
    requires x in sel
    ensures k < |sel| && sel[k] == x && x !in sel[..k]
  {
    if sel[0] == x then 0
    else
      var k := 1 + FirstIndex(sel[1..], x);
      assert sel[..k] == [sel[0]] + sel[1..][..k - 1];
      k
  }

  lemma FirstIndexAt(sel: seq<Option<Shift>>, k: nat)
    requires k < |sel| && sel[k] !in sel[..k]
    ensures FirstIndex(sel, sel[k]) == k
  {
    var f := FirstIndex(sel, sel[k]);
    assert forall j :: 0 <= j < k ==> sel[j] in sel[..k];
    assert forall j :: 0 <= j < f ==> sel[j] in sel[..f];
  }

  /** `prefs` holds every shift kind selected in `sel`, each once, ordered by
      where it was first selected: the empty selections and the repeats are
      dropped and the first occurrence keeps its rank. */
  ghost predicate DeduplicatedFrom(sel: seq<Option<Shift>>, prefs: seq<Shift>)
  {
    && (forall sh :: sh in prefs <==> Some(sh) in sel)
    && (forall a, b :: 0 <= a < b < |prefs| ==>
          FirstIndex(sel, Some(prefs[a])) < FirstIndex(sel, Some(prefs[b])))
  }

  /** The preference list built from the form's select values (`None` is the
      empty "" option), skipping empty values and values already taken. */
  method CollectPreferences(selections: seq<Option<Shift>>) returns (prefs: seq<Shift>)
    ensures DeduplicatedFrom(selections, prefs)
    ensures forall a, b :: 0 <= a < b < |prefs| ==> prefs[a] != prefs[b]
  {
    prefs := [];
    var seen: set<Shift> := {};
    for k := 0 to |selections|
      invariant forall sh :: sh in seen <==> sh in prefs
      invariant forall sh :: sh in prefs <==> Some(sh) in selections[..k]
      invariant forall a :: 0 <= a < |prefs| ==> FirstIndex(selections, Some(prefs[a])) < k
      invariant forall a, b :: 0 <= a < b < |prefs| ==>
                  FirstIndex(selections, Some(prefs[a])) < FirstIndex(selections, Some(prefs[b]))
    {
      assert selections[..k + 1] == selections[..k] + [selections[k]];
      if selections[k].Some? && selections[k].value !in seen {
        FirstIndexAt(selections, k);
        prefs := prefs + [selections[k].value];
        seen := seen + {selections[k].value};
      }
    }
    assert selections[..|selections|] == selections;
  }

  /** Two sequences ordered strictly by the same key and holding the same
      elements are the same sequence. */
  lemma {:induction false} KeyOrderedEqual(p: seq<Shift>, q: seq<Shift>, key: Shift -> int)
    requires forall a, b :: 0 <= a < b < |p| ==> key(p[a]) < key(p[b])
    requires forall a, b :: 0 <= a < b < |q| ==> key(q[a]) < key(q[b])
    requires forall x :: x in p <==> x in q
    ensures p == q
    decreases |p|
  {
    assert q != [] ==> q[0] in p;
    assert p != [] ==> p[0] in q;
    if p != [] && q != [] {
      SameHead(p, q, key);
      forall x
        ensures x in p[1..] <==> x in q[1..]
      {
        if x in p[1..] {
          TailMember(p, q, key, x);
        }
        if x in q[1..] {
          TailMember(q, p, key, x);
        }
      }
      KeyOrderedEqual(p[1..], q[1..], key);
      assert p == [p[0]] + p[1..];
      assert q == [q[0]] + q[1..];
    }
  }

  /** Both sequences start with their smallest element, which is common. */
  lemma SameHead(p: seq<Shift>, q: seq<Shift>, key: Shift -> int)
    requires p != [] && q != []
    requires forall a, b :: 0 <= a < b < |p| ==> key(p[a]) < key(p[b])
    requires forall a, b :: 0 <= a < b < |q| ==> key(q[a]) < key(q[b])
    requires q[0] in p && p[0] in q
    ensures p[0] == q[0]
  {
    var m :| 0 <= m < |q| && q[m] == p[0];
    var n :| 0 <= n < |p| && p[n] == q[0];
    assert key(p[0]) <= key(p[n]);
    assert key(q[0]) <= key(q[m]);
  }

  /** With a common head, an element in the tail of one is in the tail of
      the other. */
  lemma TailMember(p: seq<Shift>, q: seq<Shift>, key: Shift -> int, x: Shift)
    requires p != [] && q != [] && p[0] == q[0]
    requires forall a, b :: 0 <= a < b < |p| ==> key(p[a]) < key(p[b])
    requires forall y :: y in p ==> y in q
    requires x in p[1..]
    ensures x in q[1..]
  {
    var i :| 0 <= i < |p[1..]| && p[1..][i] == x;
    assert key(p[0]) < key(p[i + 1]);
    assert x in p;
    var j :| 0 <= j < |q| && q[j] == x;
    assert q[1..][j - 1] == x;
  }

  /** The de-duplication rule leaves no freedom: at most one preference list
      is deduplicated from a given selection. */
  lemma PreferencesDetermined(sel: seq<Option<Shift>>, p: seq<Shift>, q: seq<Shift>)
    requires DeduplicatedFrom(sel, p) && DeduplicatedFrom(sel, q)
    ensures p == q
  {
    var key := (x: Shift) => if Some(x) in sel then FirstIndex(sel, Some(x)) as int else 0;
    assert forall a :: 0 <= a < |p| ==> key(p[a]) == FirstIndex(sel, Some(p[a]));
    assert forall a :: 0 <= a < |q| ==> key(q[a]) == FirstIndex(sel, Some(q[a]));
    KeyOrderedEqual(p, q, key);
  }

  /** Adds one employee from the form: rejects a name that trims to empty and
      leaves the roster as it was; otherwise appends exactly one record with
      the trimmed name, the de-duplicated preferences and no assignments. */
  method AddEmployee(employees: seq<Employee>, rawName: string, selections: seq<Option<Shift>>)
    returns (employees': seq<Employee>, error: Option<RosterError>)
    ensures error.Some? <==> IsBlank(rawName)
    ensures error.Some? ==> employees' == employees && error == Some(EmptyName)
    ensures error.None? ==> |employees'| == |employees| + 1 && employees'[..|employees|] == employees
    ensures error.None? ==>
              var e := employees'[|employees|];
              && e.name == Trim(rawName) && e.name != []
              && DeduplicatedFrom(selections, e.preferences)
              && e.assignedShifts == map[] && e.daysWorked == 0
  {
    var name := Trim(rawName);
    if name == [] {
      return employees, Some(EmptyName);
    }
    var prefs := CollectPreferences(selections);
    employees' := employees + [Employee(name, prefs, map[], 0)];
    error := None;
  }

  /** Where `splice(index, 1)` starts deleting: a negative index counts from
      the end, and either kind is clamped to the array. */
  function SpliceStart(length: nat, index: int): (k: nat)
    ensures k <= length
    ensures 0 <= index <= length ==> k == index
    ensures index < 0 && 0 <= length + index ==> k == length + index
    ensures index < 0 && length + index < 0 ==> k == 0
    ensures index > length ==> k == length
  {
    if index < 0 then (if length + index < 0 then 0 else length + index)
    else if index > length then length
    else index
  }

  /** `splice(index, 1)` on the roster: exactly the element at the start
      position goes, and putting it back restores the roster; a start
      position past the end removes nothing. */
  function RemoveEmployee(employees: seq<Employee>, index: int): (r: seq<Employee>)
    ensures var k := SpliceStart(|employees|, index);
            k < |employees| ==> |r| == |employees| - 1 && r[..k] + [employees[k]] + r[k..] == employees
    ensures SpliceStart(|employees|, index) == |employees| ==> r == employees
    ensures 0 <= index < |employees| ==> multiset(r) + multiset{employees[index]} == multiset(employees)
  {
    var k := SpliceStart(|employees|, index);
    if k < |employees| then
      var r := employees[..k] + employees[k + 1..];
      assert r[..k] == employees[..k];
      assert r[k..] == employees[k + 1..];
      assert employees == employees[..k] + [employees[k]] + employees[k + 1..];
      r
    else employees
  }

  /** The reset at the start of a run: every employee keeps its name and
      preferences and loses all assignments. */
  function ResetEmployees(employees: seq<Employee>): (r: seq<Employee>)
    ensures |r| == |employees|
    ensures forall i :: 0 <= i < |r| ==>
              r[i].assignedShifts == map[] && r[i].daysWorked == 0
    ensures forall i :: 0 <= i < |r| ==>
              r[i].name == employees[i].name && r[i].preferences == employees[i].preferences
  {
    seq(|employees|, i requires 0 <= i < |employees| =>
      employees[i].(assignedShifts := map[], daysWorked := 0))
  }

  /** Two rosters with the same names and preferences in the same order. */
  ghost predicate SameProfiles(a: seq<Employee>, b: seq<Employee>)
  {
    && |a| == |b|
    && forall i :: 0 <= i < |a| ==> a[i].name == b[i].name && a[i].preferences == b[i].preferences
  }

  /** Nothing from an earlier run carries over: the reset depends only on
      names and preferences, so a second run starts where the first did. */
  lemma ResetForgetsAssignments(a: seq<Employee>, b: seq<Employee>)
    requires SameProfiles(a, b)
    ensures ResetEmployees(a) == ResetEmployees(b)
    ensures ResetEmployees(ResetEmployees(a)) == ResetEmployees(a)
  {
    var ra, rb := ResetEmployees(a), ResetEmployees(b);
    assert forall i :: 0 <= i < |ra| ==> ra[i] == rb[i];
    var rra := ResetEmployees(ra);
    assert forall i :: 0 <= i < |ra| ==> rra[i] == ra[i];
  }
}
