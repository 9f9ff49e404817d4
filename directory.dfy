/** The state of the directory component and its sort handler: the employee
    list, the search box, the sort column and direction, the view toggle and the
    department drop-down. The memoised views are functions of that state. */
module Directory {
  import opened Employees
  import opened ArraySort
  import opened SortEngine
  import opened DerivedViews
  import opened Search

  datatype Option<T> = None | Some(value: T)

  /** The two layouts; the flag only selects which markup is shown. */
  datatype ViewMode = Table | Cards

  /** The direction a click on `column` sorts in: the opposite of the current
      one when the list is already sorted by `column`, otherwise ascending. */
  function NextDirection(current: Option<Column>, direction: Direction, column: Column): (d: Direction)
    ensures d == 1 <==> current != Some(column) || direction == -1
  {
    if current == Some(column) then -(direction as int) else 1
  }

  /** The direction after `clicks` more clicks on the header of `column`. Each
      click on the column already sorted by flips the direction; repeated clicks
      on another column (or when none is sorted by) give ascending, descending,
      ascending, and so on. */
  function DirectionAfter(current: Option<Column>, direction: Direction, column: Column, clicks: nat): (d: Direction)
    decreases clicks
    ensures current == Some(column) ==> d == if clicks % 2 == 0 then direction else -(direction as int)
    ensures current != Some(column) && clicks > 0 ==> d == if clicks % 2 == 1 then 1 else -1
  {
    if clicks == 0 then direction
    else DirectionAfter(Some(column), NextDirection(current, direction, column), column, clicks - 1)
  }

  /** `after` is `before` sorted by `column` in `direction`: the same records
      with the same multiplicities, the column's values in order, records with
      equal values in their previous order, and so the same statistics. */
  ghost predicate SortedByColumn(before: seq<Employee>, after: seq<Employee>, column: Column, direction: Direction)
  {
    && multiset(after) == multiset(before)
    && (forall i, j | 0 <= i < j < |after| ::
          if direction == 1 then KeyAtMost(KeyOf(after[i], column), KeyOf(after[j], column))
          else KeyAtMost(KeyOf(after[j], column), KeyOf(after[i], column)))
    && (forall k ::
          WithKey(after, column, KeyOf(k, column)) == WithKey(before, column, KeyOf(k, column)))
    && StatisticsOf(after) == StatisticsOf(before)
  }

  /** What `[...employees].sort(comparator)` returns is the list sorted by the column. */
  lemma SortOutcome(s: seq<Employee>, column: Column, direction: Direction)
    ensures SortedByColumn(s, StableSort(s, Comparator(column, direction)), column, direction)
  {
    var cmp := Comparator(column, direction);
    var r := StableSort(s, cmp);
    StableSortPermutes(s, cmp);
    StableSortSorted(s, cmp);
    SortedByDirection(r, column, direction);
    forall k
      ensures WithKey(r, column, KeyOf(k, column)) == WithKey(s, column, KeyOf(k, column))
    {
      SortKeepsKeyOrder(s, column, direction, k);
    }
    StatisticsPermutation(r, s);
  }

  class EmployeeDirectory {
    var employees: seq<Employee>
    var searchQuery: string
    var sortColumn: Option<Column>
    var sortDirection: Direction
    var viewMode: ViewMode
    var filterDepartment: string

    /** The component as first rendered: nothing searched, unsorted, cards,
        every department. */
    constructor (initial: seq<Employee>)
      ensures employees == initial
      ensures searchQuery == "" && sortColumn == None && sortDirection == 1
      ensures viewMode == Cards && filterDepartment == "all"
    {
      employees := initial;
      searchQuery := "";
      sortColumn := None;
      sortDirection := 1;
      viewMode := Cards;
      filterDepartment := "all";
    }

    /** `departments`: each department of the list once, in first-seen order. */
    function DepartmentChoices(): (r: seq<string>)
      reads this
      ensures forall i, j | 0 <= i < j < |r| :: r[i] != r[j]
      ensures forall d :: d in r <==> exists e | e in employees :: e.department == d
      ensures forall d :: d in r <==> d in DepartmentColumn(employees)
      ensures forall i, j | 0 <= i < j < |r| ::
        FirstIndex(DepartmentColumn(employees), r[i]) < FirstIndex(DepartmentColumn(employees), r[j])
    {
      Departments(employees)
    }

    /** `statistics`. */
    function StatisticsCards(): (st: DerivedViews.Statistics)
      reads this
      ensures st.totalEmployees == |employees|
      ensures st.averageSalary == NaN <==> employees == []
      ensures st.averageAge == NaN <==> employees == []
      ensures st.averageSalary.Rounded? ==>
        |employees| * (2 * st.averageSalary.value - 1) <= 2 * Total(employees, Salary)
        < |employees| * (2 * st.averageSalary.value + 1)
      ensures st.averageAge.Rounded? ==>
        |employees| * (2 * st.averageAge.value - 1) <= 2 * Total(employees, Age)
        < |employees| * (2 * st.averageAge.value + 1)
      ensures st.locations == |LocationSet(employees)|
    {
      StatisticsOf(employees)
    }

    /** `filteredEmployees`: the records the search box and the drop-down let
        through, in list order; computing it changes nothing. */
    function FilteredEmployees(): (r: seq<Employee>)
      reads this
      ensures IsSubsequence(r, employees)
      ensures forall e :: e in r <==> e in employees && Shown(e, searchQuery, filterDepartment)
      ensures forall e ::
        multiset(r)[e] == if Shown(e, searchQuery, filterDepartment) then multiset(employees)[e] else 0
    {
      var r := Filter(employees, searchQuery, filterDepartment);
      assert forall e :: e in r <==> e in multiset(r);
      assert forall e :: e in employees <==> e in multiset(employees);
      r
    }

    /** A click on the header of `column`: choose the direction, remember the
        column and the direction, and replace the list by a copy sorted with
        `Array.prototype.sort` and the column comparator. */
    method HandleSort(column: Column)
      modifies this
      ensures sortColumn == Some(column)
      ensures sortDirection == NextDirection(old(sortColumn), old(sortDirection), column)
      ensures employees == StableSort(old(employees), Comparator(column, sortDirection))
      ensures SortedByColumn(old(employees), employees, column, sortDirection)
      ensures searchQuery == old(searchQuery) && viewMode == old(viewMode)
      ensures filterDepartment == old(filterDepartment)
    {
      var direction := NextDirection(sortColumn, sortDirection, column);
      sortColumn := Some(column);
      sortDirection := direction;

      var sorted := SortedCopy(employees, column, direction);
      SortOutcome(employees, column, direction);
      employees := sorted;
    }

    /** Typing in the search box. */
    method SetSearchQuery(query: string)
      modifies this
      ensures searchQuery == query
      ensures employees == old(employees) && sortColumn == old(sortColumn)
      ensures sortDirection == old(sortDirection) && viewMode == old(viewMode)
      ensures filterDepartment == old(filterDepartment)
    {
      searchQuery := query;
    }

    /** Choosing in the department drop-down. */
    method SetFilterDepartment(department: string)
      modifies this
      ensures filterDepartment == department
      ensures employees == old(employees) && sortColumn == old(sortColumn)
      ensures sortDirection == old(sortDirection) && viewMode == old(viewMode)
      ensures searchQuery == old(searchQuery)
    {
      filterDepartment := department;
    }

    /** The table and cards buttons. */
    method SetViewMode(mode: ViewMode)
      modifies this
      ensures viewMode == mode
      ensures employees == old(employees) && sortColumn == old(sortColumn)
      ensures sortDirection == old(sortDirection) && searchQuery == old(searchQuery)
      ensures filterDepartment == old(filterDepartment)
    {
      viewMode := mode;
    }
  }
}
