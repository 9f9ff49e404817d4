/** The two views derived from the employee list alone: the department choices
    of the filter drop-down, and the four statistics cards. */
module DerivedViews {
  import opened Employees

  // ---------------------------------------------------------------------------
  // `Array.from(new Set(xs))`: the distinct values, in order of first appearance

  function Distinct(xs: seq<string>): (r: seq<string>)
    ensures forall i, j | 0 <= i < j < |r| :: r[i] != r[j]
    ensures forall x :: x in r <==> x in xs
  {
    if xs == [] then []
    else
      var seen := Distinct(xs[..|xs| - 1]);
      if xs[|xs| - 1] in seen then seen else seen + [xs[|xs| - 1]]
  }

  /** The position where `x` first appears in `xs`. */
  function FirstIndex(xs: seq<string>, x: string): (k: nat)
    requires x in xs
    ensures k < |xs| && xs[k] == x && x !in xs[..k]
  {
    if xs[0] == x then 0
    else
      var k := FirstIndex(xs[1..], x);
      assert xs[..k + 1] == [xs[0]] + xs[1..][..k];
      k + 1
  }

  /** A value found before position `n` has the same first position in the
      prefix of length `n` as in the whole sequence. */
  lemma FirstIndexInPrefix(xs: seq<string>, n: nat, x: string)
    requires n <= |xs| && x in xs[..n]
    ensures FirstIndex(xs, x) == FirstIndex(xs[..n], x)
  {
  }

  /** The distinct values are listed in the order in which each first appears. */
  lemma {:induction false} DistinctFirstSeenOrder(xs: seq<string>)
    ensures forall i, j | 0 <= i < j < |Distinct(xs)| ::
      FirstIndex(xs, Distinct(xs)[i]) < FirstIndex(xs, Distinct(xs)[j])
  {
    if xs != [] {
      var init := xs[..|xs| - 1];
      DistinctFirstSeenOrder(init);
      var r, seen := Distinct(xs), Distinct(init);
      assert init == xs[..|xs| - 1];
      forall x | x in seen ensures FirstIndex(xs, x) == FirstIndex(init, x) {
        FirstIndexInPrefix(xs, |xs| - 1, x);
      }
      if xs[|xs| - 1] !in seen {
        assert FirstIndex(xs, xs[|xs| - 1]) == |xs| - 1;
        assert r[..|seen|] == seen;
      }
    }
  }

  /** A sequence without repeated values is its own set of distinct values. */
  lemma {:induction false} DistinctOfDistinct(xs: seq<string>)
    requires forall i, j | 0 <= i < j < |xs| :: xs[i] != xs[j]
    ensures Distinct(xs) == xs
  {
    if xs != [] {
      DistinctOfDistinct(xs[..|xs| - 1]);
      assert xs[..|xs| - 1] + [xs[|xs| - 1]] == xs;
    }
  }

  /** The number of distinct values is the size of their set. */
  lemma {:induction false} DistinctCount(xs: seq<string>)
    ensures |Distinct(xs)| == |set x | x in xs|
  {
    var r := Distinct(xs);
    assert (set x | x in xs) == (set x | x in r);
    NoDuplicatesCount(r);
  }

  lemma {:induction false} NoDuplicatesCount(r: seq<string>)
    requires forall i, j | 0 <= i < j < |r| :: r[i] != r[j]
    ensures |set x | x in r| == |r|
  {
    if r != [] {
      var init := r[..|r| - 1];
      NoDuplicatesCount(init);
      assert (set x | x in r) == (set x | x in init) + {r[|r| - 1]};
    }
  }

  // ---------------------------------------------------------------------------
  // `departments`

  function DepartmentColumn(s: seq<Employee>): seq<string>
  {
    seq(|s|, i requires 0 <= i < |s| => s[i].department)
  }

  /** The department choices: each department of the list exactly once, in
      the order in which the list first mentions it. */
  function Departments(s: seq<Employee>): (r: seq<string>)
    ensures forall i, j | 0 <= i < j < |r| :: r[i] != r[j]
    ensures forall d :: d in r <==> d in DepartmentColumn(s)
    ensures forall d :: d in r <==> exists e | e in s :: e.department == d
    ensures forall i, j | 0 <= i < j < |r| ::
      FirstIndex(DepartmentColumn(s), r[i]) < FirstIndex(DepartmentColumn(s), r[j])
  {
    var column := DepartmentColumn(s);
    DistinctFirstSeenOrder(column);
    assert forall e | e in s :: e.department in column by {
      forall e | e in s ensures e.department in column {
        var i :| 0 <= i < |s| && s[i] == e;
        assert column[i] == e.department;
      }
    }
    Distinct(column)
  }

  // ---------------------------------------------------------------------------
  // `statistics`

  /** What `Math.round(sum / count)` shows: NaN for an empty list (0 / 0),
      otherwise a whole number. */
  datatype Average = NaN | Rounded(value: nat)

  /** `Math.round(sum / count)`: the whole number nearest to the mean, a half
      rounded up. */
  function RoundedAverage(sum: nat, count: nat): (r: Average)
    ensures r == NaN <==> count == 0
    ensures r.Rounded? ==> count * (2 * r.value - 1) <= 2 * sum < count * (2 * r.value + 1)
  {
    if count == 0 then NaN
    else
      var v := (2 * sum + count) / (2 * count);
      DivBounds(2 * sum + count, 2 * count);
      Rounded(v)
  }

  lemma DivBounds(a: nat, b: nat)
    requires b > 0
    ensures b * (a / b) <= a < b * (a / b + 1)
  {
  }

  /** A mean that is a whole number is shown unrounded. */
  lemma ExactAverage(k: nat, count: nat)
    requires count > 0
    ensures RoundedAverage(count * k, count) == Rounded(k)
  {
    var v := RoundedAverage(count * k, count).value;
    Distribute(count, v);
    Distribute(count, k);
    if v < k {
      MulMonotone(count, v, k - 1);
      Distribute(count, k - 1);
    } else if v > k {
      MulMonotone(count, k, v - 1);
      Distribute(count, v - 1);
    }
  }

  lemma Distribute(c: nat, a: int)
    ensures c * (2 * a + 1) == 2 * (c * a) + c
    ensures c * (2 * a - 1) == 2 * (c * a) - c
    ensures c * (a + 1) == c * a + c
  {
  }

  lemma MulMonotone(c: nat, x: int, y: int)
    requires x <= y
    ensures c * x <= c * y
  {
  }

  /** `employees.reduce((acc, emp) => acc + emp[c], 0)` for a numeric column. */
  function Total(s: seq<Employee>, c: Column): (t: nat)
    requires c == Age || c == Salary
    ensures s == [] ==> t == 0
    ensures forall i | 0 <= i < |s| :: KeyOf(s[i], c).n <= t
  {
    if s == [] then 0 else Total(s[..|s| - 1], c) + KeyOf(s[|s| - 1], c).n
  }

  lemma {:induction false} TotalAppend(a: seq<Employee>, b: seq<Employee>, c: Column)
    requires c == Age || c == Salary
    ensures Total(a + b, c) == Total(a, c) + Total(b, c)
    decreases |b|
  {
    if b == [] {
      assert a + b == a;
    } else {
      TotalAppend(a, b[..|b| - 1], c);
      assert (a + b)[..|a + b| - 1] == a + b[..|b| - 1];
    }
  }

  /** A total does not depend on the order of the records. */
  lemma {:induction false} TotalPermutation(a: seq<Employee>, b: seq<Employee>, c: Column)
    requires c == Age || c == Salary
    requires multiset(a) == multiset(b)
    ensures Total(a, c) == Total(b, c)
    decreases |a|
  {
    if a == [] {
      assert |multiset(b)| == 0;
    } else {
      var x := a[|a| - 1];
      assert x in multiset(b) by {
        assert a == a[..|a| - 1] + [x];
      }
      var k :| 0 <= k < |b| && b[k] == x;
      var rest := b[..k] + b[k + 1..];
      assert multiset(a[..|a| - 1]) == multiset(rest) by {
        assert a == a[..|a| - 1] + [x];
        assert multiset(a[..|a| - 1]) == multiset(a) - multiset{x};
        MultisetRemove(b, k);
      }
      TotalPermutation(a[..|a| - 1], rest, c);
      TotalRemove(b, k, c);
    }
  }

  lemma MultisetRemove(b: seq<Employee>, k: nat)
    requires k < |b|
    ensures multiset(b[..k] + b[k + 1..]) == multiset(b) - multiset{b[k]}
  {
    assert b == b[..k] + [b[k]] + b[k + 1..];
  }

  lemma TotalRemove(b: seq<Employee>, k: nat, c: Column)
    requires c == Age || c == Salary
    requires k < |b|
    ensures Total(b, c) == Total(b[..k] + b[k + 1..], c) + KeyOf(b[k], c).n
  {
    assert b == b[..k] + [b[k]] + b[k + 1..];
    TotalAppend(b[..k] + [b[k]], b[k + 1..], c);
    TotalAppend(b[..k], [b[k]], c);
    TotalAppend(b[..k], b[k + 1..], c);
    assert [b[k]][..0] == [];
  }

  function LocationColumn(s: seq<Employee>): seq<string>
  {
    seq(|s|, i requires 0 <= i < |s| => s[i].location)
  }

  /** The four statistics cards. */
  datatype Statistics = Statistics(
    totalEmployees: nat,
    averageSalary: Average,
    averageAge: Average,
    locations: nat)

  function LocationSet(s: seq<Employee>): set<string>
  {
    set e | e in s :: e.location
  }

  /** The statistics of a list: its length, the salary and age means as
      `Math.round` shows them, and the number of different locations. */
  function StatisticsOf(s: seq<Employee>): (st: Statistics)
    ensures st.totalEmployees == |s|
    ensures st.averageSalary == NaN <==> s == []
    ensures st.averageAge == NaN <==> s == []
    ensures st.averageSalary.Rounded? ==>
      |s| * (2 * st.averageSalary.value - 1) <= 2 * Total(s, Salary) < |s| * (2 * st.averageSalary.value + 1)
    ensures st.averageAge.Rounded? ==>
      |s| * (2 * st.averageAge.value - 1) <= 2 * Total(s, Age) < |s| * (2 * st.averageAge.value + 1)
    ensures st.locations == |LocationSet(s)|
  {
    LocationCount(s);
    Statistics(
      |s|,
      RoundedAverage(Total(s, Salary), |s|),
      RoundedAverage(Total(s, Age), |s|),
      |Distinct(LocationColumn(s))|)
  }

  lemma LocationCount(s: seq<Employee>)
    ensures |Distinct(LocationColumn(s))| == |LocationSet(s)|
  {
    var column := LocationColumn(s);
    DistinctCount(column);
    forall e | e in s ensures e.location in column {
      var i :| 0 <= i < |s| && s[i] == e;
      assert column[i] == e.location;
    }
    assert (set x | x in column) == LocationSet(s);
  }

  /** Reordering the records, as sorting does, leaves every statistic as it was. */
  lemma StatisticsPermutation(a: seq<Employee>, b: seq<Employee>)
    requires multiset(a) == multiset(b)
    ensures StatisticsOf(a) == StatisticsOf(b)
  {
    TotalPermutation(a, b, Salary);
    TotalPermutation(a, b, Age);
    assert |a| == |multiset(a)| == |b|;
    forall e ensures e in a <==> e in b {
      assert e in a <==> e in multiset(a);
    }
    assert LocationSet(a) == LocationSet(b);
  }
}
