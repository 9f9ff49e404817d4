/** The four records the component starts with, and what its views show for them. */
module Scenario {
  import opened Employees
  import opened DerivedViews
  import opened Search
  import opened ArraySort
  import opened SortEngine
  import opened Directory

  const Nathanael := Employee(1, "Nathanael", 18, "Sealiyur", 1000, "Engineering",
    "https://images.unsplash.com/photo-1539571696357-5a69c17a67c6?w=400&h=400&fit=crop")
  const Jonathan := Employee(2, "Jonathan", 23, "Bangalore", 2000, "Design",
    "https://images.unsplash.com/photo-1507003211169-0a1dd7228f2d?w=400&h=400&fit=crop")
  const Jeyakumari := Employee(3, "Jeyakumari", 46, "Ambattur", 3000, "Marketing",
    "https://images.unsplash.com/photo-1494790108377-be9c29b29330?w=400&h=400&fit=crop")
  const Cecil := Employee(4, "Cecil", 47, "Tambaram", 5000, "Sales",
    "https://images.unsplash.com/photo-1500648767791-00dcc994a43e?w=400&h=400&fit=crop")

  function Seed(): (s: seq<Employee>)
    ensures |s| == 4
  {
    [Nathanael, Jonathan, Jeyakumari, Cecil]
  }

  lemma SeedPrefixes(s: seq<Employee>)
    requires |s| == 4
    ensures s[..3][..2] == s[..2] && s[..2][..1] == s[..1] && s[..1][..0] == []
  {
  }

  /** The statistics cards read 4 employees, an average salary of 2750, an
      average age of 34 (33.5 rounded up) and 4 locations. */
  lemma SeedStatistics()
    ensures StatisticsOf(Seed()) == Statistics(4, Rounded(2750), Rounded(34), 4)
  {
    var s := Seed();
    SeedPrefixes(s);
    assert s[0] == Nathanael && s[1] == Jonathan && s[2] == Jeyakumari && s[3] == Cecil;
    assert Total(s[..1], Salary) == 1000;
    assert Total(s[..2], Salary) == 3000;
    assert Total(s[..3], Salary) == 6000;
    assert Total(s, Salary) == 11000;
    assert Total(s[..1], Age) == 18;
    assert Total(s[..2], Age) == 41;
    assert Total(s[..3], Age) == 87;
    assert Total(s, Age) == 134;
    ExactAverage(2750, 4);
    var column := LocationColumn(s);
    assert column == ["Sealiyur", "Bangalore", "Ambattur", "Tambaram"];
    DistinctOfDistinct(column);
  }

  /** The drop-down offers the four departments in list order. */
  lemma SeedDepartments()
    ensures Departments(Seed()) == ["Engineering", "Design", "Marketing", "Sales"]
  {
    var column := DepartmentColumn(Seed());
    assert column == ["Engineering", "Design", "Marketing", "Sales"];
    DistinctOfDistinct(column);
  }

  /** Choosing "Design" with an empty search box shows Jonathan alone. */
  lemma SeedDesignFilter()
    ensures Filter(Seed(), "", "Design") == [Jonathan]
  {
    DesignShowsJonathan();
    OnlySecondShown(Nathanael, Jonathan, Jeyakumari, Cecil, "", "Design");
  }

  lemma OnlySecondShown(a: Employee, b: Employee, c: Employee, e: Employee, query: string, department: string)
    requires !InDepartment(a, department) && Shown(b, query, department)
    requires !InDepartment(c, department) && !InDepartment(e, department)
    ensures Filter([a, b, c, e], query, department) == [b]
  {
    SecondOfTwoShown(a, b, query, department);
    FilterSnocHidden([a, b], c, query, department);
    assert [a, b] + [c] == [a, b, c];
    FilterSnocHidden([a, b, c], e, query, department);
    assert [a, b, c] + [e] == [a, b, c, e];
  }

  lemma SecondOfTwoShown(a: Employee, b: Employee, query: string, department: string)
    requires !InDepartment(a, department) && Shown(b, query, department)
    ensures Filter([a, b], query, department) == [b]
  {
    FilterSnocHidden([], a, query, department);
    assert [] + [a] == [a];
    FilterSnoc([a], b, query, department);
    assert [a] + [b] == [a, b];
  }

  lemma DesignShowsJonathan()
    ensures Shown(Jonathan, "", "Design")
  {
    EmptyQueryMatches(Jonathan);
  }

  /** A first click on the Salary header sorts the seed ascending, which is its
      own order (1000, 2000, 3000, 5000); a second click sorts it descending. */
  lemma SeedSalarySort()
    ensures NextDirection(None, 1, Salary) == 1
    ensures StableSort(Seed(), Comparator(Salary, 1)) == Seed()
    ensures NextDirection(Some(Salary), 1, Salary) == -1
    ensures StableSort(Seed(), Comparator(Salary, -1)) == [Cecil, Jeyakumari, Jonathan, Nathanael]
  {
    IncreasingSalaries(Nathanael, Jonathan, Jeyakumari, Cecil);
  }

  lemma IncreasingSalaries(a: Employee, b: Employee, c: Employee, e: Employee)
    requires a.salary < b.salary < c.salary < e.salary
    ensures StableSort([a, b, c, e], Comparator(Salary, 1)) == [a, b, c, e]
    ensures StableSort([a, b, c, e], Comparator(Salary, -1)) == [e, c, b, a]
  {
    var s := [a, b, c, e];
    SalaryOrder(s, 1);
    StableSortOfOrdered(s, Comparator(Salary, 1));
    SalaryOrder(s, -1);
    StableSortOfReversed(s, Comparator(Salary, -1));
    ReversedFour(a, b, c, e);
  }

  lemma ReversedFour(a: Employee, b: Employee, c: Employee, e: Employee)
    ensures Reversed([a, b, c, e]) == [e, c, b, a]
  {
    var r := Reversed([a, b, c, e]);
    assert r[0] == e && r[1] == c && r[2] == b && r[3] == a;
  }

  /** With salaries strictly increasing along `s`, a later record never goes
      before an earlier one in ascending order, and always does in descending. */
  lemma SalaryOrder(s: seq<Employee>, d: Direction)
    requires forall i, j | 0 <= i < j < |s| :: s[i].salary < s[j].salary
    ensures d == 1 ==> forall i, j | 0 <= i < j < |s| :: Comparator(Salary, d)(s[j], s[i]) >= 0
    ensures d == -1 ==> forall i, j | 0 <= i < j < |s| :: Comparator(Salary, d)(s[j], s[i]) < 0
  {
    var cmp := Comparator(Salary, d);
    forall i, j | 0 <= i < j < |s|
      ensures d == 1 ==> cmp(s[j], s[i]) >= 0
      ensures d == -1 ==> cmp(s[j], s[i]) < 0
    {
      assert KeyLess(KeyOf(s[i], Salary), KeyOf(s[j], Salary));
    }
  }
}
