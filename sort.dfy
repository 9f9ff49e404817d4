/** The column sort behind the table header: the comparator handed to
    `Array.prototype.sort`, and what the sorted list looks like in terms of the
    column's values. */
module SortEngine {
  import opened Employees
  import opened ArraySort

  /** The sign the comparator's result is multiplied by: 1 ascending, -1 descending. */
  type Direction = d: int | d == 1 || d == -1 witness 1

  /** The comparator passed to the sort: negative when `a` must come before `b`,
      positive when after, zero on a tie. */
  function Compare(a: Employee, b: Employee, c: Column, d: Direction): (r: int)
    ensures r == 0 <==> KeyOf(a, c) == KeyOf(b, c)
    ensures r < 0 <==>
      if d == 1 then KeyLess(KeyOf(a, c), KeyOf(b, c)) else KeyLess(KeyOf(b, c), KeyOf(a, c))
  {
    KeyLessTotal(a, b, c);
    KeyLessIrreflexive(KeyOf(a, c));
    if KeyLess(KeyOf(a, c), KeyOf(b, c)) then
      KeyLessAsymmetric(KeyOf(a, c), KeyOf(b, c));
      -1 * d
    else if KeyLess(KeyOf(b, c), KeyOf(a, c)) then
      1 * d
    else
      0
  }

  /** Swapping the operands negates the comparator. */
  lemma CompareAntisymmetric(a: Employee, b: Employee, c: Column, d: Direction)
    ensures Compare(a, b, c, d) == -Compare(b, a, c, d)
  {
    if KeyLess(KeyOf(a, c), KeyOf(b, c)) {
      KeyLessAsymmetric(KeyOf(a, c), KeyOf(b, c));
    }
  }

  /** "Not after" is transitive, and strictly so when either step is strict. */
  lemma CompareTransitive(a: Employee, b: Employee, e: Employee, c: Column, d: Direction)
    requires Compare(a, b, c, d) <= 0 && Compare(b, e, c, d) <= 0
    ensures Compare(a, e, c, d) <= 0
    ensures Compare(a, b, c, d) < 0 || Compare(b, e, c, d) < 0 ==> Compare(a, e, c, d) < 0
  {
    var x, y, z := KeyOf(a, c), KeyOf(b, c), KeyOf(e, c);
    KeyLessTotal(a, e, c);
    if d == 1 {
      if KeyLess(x, y) && KeyLess(y, z) {
        KeyLessTransitive(x, y, z);
      }
      if KeyLess(z, x) {
        KeyLessIrreflexive(x);
        if KeyLess(x, y) {
          KeyLessTransitive(z, x, y);
          KeyLessAsymmetric(z, y);
        } else if KeyLess(y, z) {
          KeyLessTransitive(y, z, x);
          KeyLessAsymmetric(x, y);
        }
      }
    } else {
      if KeyLess(z, y) && KeyLess(y, x) {
        KeyLessTransitive(z, y, x);
      }
      if KeyLess(x, z) {
        KeyLessIrreflexive(x);
        if KeyLess(y, x) {
          KeyLessTransitive(y, x, z);
          KeyLessAsymmetric(y, z);
        } else if KeyLess(z, y) {
          KeyLessTransitive(x, z, y);
          KeyLessAsymmetric(x, y);
        }
      }
    }
  }

  /** The comparator as the function value the sort receives. It is consistent
      in the sense `Array.prototype.sort` requires, so the sort's result is
      fully determined; it ties exactly the records with equal column values and
      puts `a` first exactly when `a`'s value is `<` `b`'s (ascending) or
      `b`'s is `<` `a`'s (descending). */
  function Comparator(c: Column, d: Direction): (cmp: (Employee, Employee) -> int)
    ensures Consistent(cmp)
    ensures forall a, b :: cmp(a, b) == 0 <==> KeyOf(a, c) == KeyOf(b, c)
    ensures forall a, b :: cmp(a, b) < 0 <==>
      if d == 1 then KeyLess(KeyOf(a, c), KeyOf(b, c)) else KeyLess(KeyOf(b, c), KeyOf(a, c))
  {
    var cmp := (a, b) => Compare(a, b, c, d);
    assert Consistent(cmp) by {
      forall a, b ensures cmp(a, b) < 0 <==> cmp(b, a) > 0 {
        CompareAntisymmetric(a, b, c, d);
      }
      forall a, b, e | cmp(a, b) <= 0 && cmp(b, e) <= 0
        ensures cmp(a, e) <= 0
        ensures cmp(a, b) < 0 ==> cmp(a, e) < 0
      {
        CompareTransitive(a, b, e, c, d);
      }
    }
    cmp
  }

  /** `[...employees].sort(comparator)`: copy the list into a fresh array and
      sort the array in place. */
  method SortedCopy(s: seq<Employee>, c: Column, d: Direction) returns (r: seq<Employee>)
    ensures r == StableSort(s, Comparator(c, d))
  {
    var copy := new Employee[|s|](i requires 0 <= i < |s| => s[i]);
    assert copy[..] == s;
    Sort(copy, Comparator(c, d));
    r := copy[..];
  }

  /** Non-strict `<` on keys. */
  predicate KeyAtMost(x: Key, y: Key)
  {
    KeyLess(x, y) || x == y
  }

  /** Sorted with direction 1 means the column never decreases along the list,
      with -1 that it never increases. */
  lemma SortedByDirection(s: seq<Employee>, c: Column, d: Direction)
    ensures Sorted(s, Comparator(c, d)) <==>
      forall i, j | 0 <= i < j < |s| ::
        if d == 1 then KeyAtMost(KeyOf(s[i], c), KeyOf(s[j], c))
        else KeyAtMost(KeyOf(s[j], c), KeyOf(s[i], c))
  {
  }

  /** The records of `s` whose column `c` holds `k`, in their order in `s`. */
  function WithKey(s: seq<Employee>, c: Column, k: Key): seq<Employee>
  {
    if s == [] then []
    else WithKey(s[..|s| - 1], c, k) + (if KeyOf(s[|s| - 1], c) == k then [s[|s| - 1]] else [])
  }

  /** The comparator ties exactly the records with equal column values. */
  lemma {:induction false} TiesAreWithKey(s: seq<Employee>, y: Employee, c: Column, d: Direction)
    ensures Ties(s, y, Comparator(c, d)) == WithKey(s, c, KeyOf(y, c))
  {
    if s != [] {
      TiesAreWithKey(s[..|s| - 1], y, c, d);
      assert s == s[..|s| - 1] + [s[|s| - 1]];
      TiesAppend(s[..|s| - 1], [s[|s| - 1]], y, Comparator(c, d));
      TiesSingleton(s[|s| - 1], y, Comparator(c, d));
    }
  }

  /** Sorting by a column keeps the records that share a value of that column
      in the order they had before: the sort is stable. */
  lemma SortKeepsKeyOrder(s: seq<Employee>, c: Column, d: Direction, k: Employee)
    ensures WithKey(StableSort(s, Comparator(c, d)), c, KeyOf(k, c)) == WithKey(s, c, KeyOf(k, c))
  {
    StableSortStable(s, k, Comparator(c, d));
    TiesAreWithKey(s, k, c, d);
    TiesAreWithKey(StableSort(s, Comparator(c, d)), k, c, d);
  }
}
