/** The employee record, the sortable columns, and the values a column compares. */
module Employees {
  import opened Text

  /** One employee, with its fields in the order the record literal declares them;
      that order is also the order in which the search visits the field values. */
  datatype Employee = Employee(
    id: nat,
    name: string,
    age: nat,
    location: string,
    salary: nat,
    department: string,
    image: string)

  /** The four columns the table header offers for sorting. */
  datatype Column = Age | Location | Salary | Department

  /** The value `emp[column]` that the sort comparator looks at. */
  datatype Key = Num(n: nat) | Str(s: string)

  function KeyOf(e: Employee, c: Column): (k: Key)
    ensures k.Num? <==> (c == Age || c == Salary)
  {
    match c
    case Age => Num(e.age)
    case Location => Str(e.location)
    case Salary => Num(e.salary)
    case Department => Str(e.department)
  }

  /** JavaScript's `<` on two values of the same column: numeric on numbers,
      lexicographic on strings. */
  predicate KeyLess(x: Key, y: Key)
  {
    match (x, y)
    case (Num(m), Num(n)) => m < n
    case (Str(a), Str(b)) => StrLess(a, b)
    case _ => false
  }

  lemma KeyLessIrreflexive(x: Key)
    ensures !KeyLess(x, x)
  {
    if x.Str? {
      StrLessIrreflexive(x.s);
    }
  }

  lemma KeyLessTransitive(x: Key, y: Key, z: Key)
    requires KeyLess(x, y) && KeyLess(y, z)
    ensures KeyLess(x, z)
  {
    if x.Str? {
      StrLessTransitive(x.s, y.s, z.s);
    }
  }

  lemma KeyLessAsymmetric(x: Key, y: Key)
    requires KeyLess(x, y)
    ensures !KeyLess(y, x)
  {
    if x.Str? {
      StrLessAsymmetric(x.s, y.s);
    }
  }

  /** The keys of one column are totally ordered by `<`. */
  lemma KeyLessTotal(a: Employee, b: Employee, c: Column)
    ensures KeyLess(KeyOf(a, c), KeyOf(b, c)) || KeyLess(KeyOf(b, c), KeyOf(a, c))
            || KeyOf(a, c) == KeyOf(b, c)
  {
    var x, y := KeyOf(a, c), KeyOf(b, c);
    if x.Str? {
      StrLessTotal(x.s, y.s);
    }
  }
}
