# Employee directory: a verified model of its data engine

The employee directory is a single React component. It holds a list of employee
records and shows them as a table or as cards. Above them it shows four
statistics cards, a search box and a department drop-down. A click on a column
header of the table sorts the list by that column. This project models the part
of the component that computes things:

- the department choices: the distinct departments, in first-seen order;
- the statistics: the head count, the rounded mean salary, the rounded mean age,
  and the number of distinct locations;
- the sort handler: it flips the direction when the same column is clicked
  again, and replaces the list by a copy sorted with `Array.prototype.sort`;
- the visible records: a department gate AND-ed with a case-insensitive
  substring search over every field value of a record.

Modules, one per file:

- `Text` (`text.dfy`) models the string operations the engine uses:
  - JavaScript's `<` on strings;
  - `toLowerCase`, for the ASCII letters;
  - `includes`;
  - decimal `toString` of a natural number.
- `Employees` (`employee.dfy`) holds the record type, the four sortable columns
  and the value a column compares.
- `ArraySort` (`arraysort.dfy`) models `Array.prototype.sort(comparefn)`.
  - It is an in-place insertion sort on an array.
  - It is proved equal to a functional stable sort.
  - That function is proved to be a permutation, sorted and stable. ECMA-262 has
    required the sort to be stable since its 2019 edition.
- `SortEngine` (`sort.dfy`) holds the column comparator and proves that it is
  consistent. It also states sortedness and stability in terms of column values.
- `DerivedViews` (`views.dfy`) computes the `departments` and `statistics` views.
- `Search` (`search.dfy`) computes the `filteredEmployees` view.
- `Directory` (`directory.dfy`) holds the component state as a class.
  - `HandleSort` changes the fields.
  - The memoised views are functions that read the fields.
- `Scenario` (`scenario.dfy`) holds the four seed records and what the views show
  for them.

Two behaviours of the code that the model keeps:

- For an empty list the averages are `NaN`, as `Math.round(0 / 0)` gives.
  `Average` has a `NaN` case, so `StatisticsOf` accepts every list.
- The sort is stable: ECMA-262 has required `Array.prototype.sort` to be stable
  since its 2019 edition.

## Model

| member | source | states |
|---|---|---|
| `Text.StrLess` | src/components/EmployeeDirectory.jsx:69-70 | JavaScript `<` on strings: a proper prefix is smaller, otherwise the first differing character decides; its order laws are the four lemmas below |
| `Text.StrLessIrreflexive` | src/components/EmployeeDirectory.jsx:69-70 | no string is `<` itself |
| `Text.StrLessTransitive` | src/components/EmployeeDirectory.jsx:69-70 | string `<` is transitive |
| `Text.StrLessAsymmetric` | src/components/EmployeeDirectory.jsx:69-70 | `a < b` excludes `b < a` |
| `Text.StrLessTotal` | src/components/EmployeeDirectory.jsx:69-70 | two strings are equal or one is `<` the other |
| `Text.Lower` | src/components/EmployeeDirectory.jsx:80 | same length; each upper-case ASCII letter becomes its lower-case letter (code + 32), every other character is unchanged; no upper-case letter is left |
| `Text.LowerIdempotent` | src/components/EmployeeDirectory.jsx:80 | lowering twice is lowering once |
| `Text.Includes` | src/components/EmployeeDirectory.jsx:80 | `includes`: the needle is a prefix of some suffix of the haystack |
| `Text.IncludesIffOccurs` | src/components/EmployeeDirectory.jsx:80 | `includes` holds iff the needle occurs at some position of the haystack |
| `Text.EmptyIncluded` | src/components/EmployeeDirectory.jsx:80 | every string includes the empty string |
| `Text.Decimal` | src/components/EmployeeDirectory.jsx:80 | `toString` of a number: non-empty, digits only, no leading zero |
| `Text.DecimalRoundTrip` | src/components/EmployeeDirectory.jsx:80 | reading the decimal text back gives the number |
| `Employees.KeyOf` | src/components/EmployeeDirectory.jsx:69-70 | `emp[column]` is a number for age and salary, a string for location and department |
| `Employees.KeyLess` | src/components/EmployeeDirectory.jsx:69-70 | `<` on column values: numeric order on numbers, string `<` on strings |
| `Employees.KeyLessIrreflexive` | src/components/EmployeeDirectory.jsx:69-70 | no column value is `<` itself |
| `Employees.KeyLessTransitive` | src/components/EmployeeDirectory.jsx:69-70 | `<` on column values is transitive |
| `Employees.KeyLessAsymmetric` | src/components/EmployeeDirectory.jsx:69-70 | `<` on column values is asymmetric |
| `Employees.KeyLessTotal` | src/components/EmployeeDirectory.jsx:69-70 | two values of one column are equal or one is `<` the other |
| `SortEngine.Compare` | src/components/EmployeeDirectory.jsx:68-72 | zero exactly on equal column values; negative exactly when `a` is `<` `b` (ascending) or `b` is `<` `a` (descending) |
| `SortEngine.CompareAntisymmetric` | src/components/EmployeeDirectory.jsx:68-72 | swapping the records negates the comparator |
| `SortEngine.CompareTransitive` | src/components/EmployeeDirectory.jsx:68-72 | "not after" is transitive, strictly when a step is strict |
| `SortEngine.Comparator` | src/components/EmployeeDirectory.jsx:68-72 | the function value given to `sort` is consistent (as `Array.prototype.sort` requires); it is zero iff the column values are equal and negative iff `a` is `<` `b` (ascending) or `b` is `<` `a` (descending) |
| `SortEngine.SortedCopy` | src/components/EmployeeDirectory.jsx:68-72 | sorting a fresh copy of the list yields the stable sort of the list |
| `SortEngine.SortedByDirection` | src/components/EmployeeDirectory.jsx:68-72 | sorted by the comparator iff the column never decreases (direction 1) or never increases (direction -1) |
| `SortEngine.TiesAreWithKey` | src/components/EmployeeDirectory.jsx:71 | the records the comparator ties with `y` are those with `y`'s column value |
| `SortEngine.SortKeepsKeyOrder` | src/components/EmployeeDirectory.jsx:68-72 | records with equal column values keep their relative order |
| `ArraySort.Insert` | src/components/EmployeeDirectory.jsx:68 | inserting one element adds exactly one |
| `ArraySort.StableSort` | src/components/EmployeeDirectory.jsx:68 | the sort keeps the length |
| `ArraySort.StableSortPermutes` | src/components/EmployeeDirectory.jsx:68 | the sort's result is a permutation (same multiset) |
| `ArraySort.StableSortSorted` | src/components/EmployeeDirectory.jsx:68 | with a consistent comparator the result is sorted |
| `ArraySort.StableSortStable` | src/components/EmployeeDirectory.jsx:68 | with a consistent comparator, the elements tying with any `y` keep their order |
| `ArraySort.StableSortOfOrdered` | src/components/EmployeeDirectory.jsx:68 | a list in which no element goes strictly before an earlier one comes back unchanged |
| `ArraySort.StableSortOfReversed` | src/components/EmployeeDirectory.jsx:68 | a list in which every element goes strictly before each earlier one comes back reversed |
| `ArraySort.InsertLast` | src/components/EmployeeDirectory.jsx:68 | one in-place insertion step: the prefix gets `a[i]` in the gap where the scan stops, the rest is untouched |
| `ArraySort.Sort` | src/components/EmployeeDirectory.jsx:68 | the array ends up as the stable sort of its old contents |
| `DerivedViews.Distinct` | src/components/EmployeeDirectory.jsx:52 | `Array.from(new Set(xs))` has no repeats and has exactly the values of `xs` |
| `DerivedViews.DistinctFirstSeenOrder` | src/components/EmployeeDirectory.jsx:52 | distinct values are listed in order of first appearance |
| `DerivedViews.DistinctOfDistinct` | src/components/EmployeeDirectory.jsx:52 | a list without repeats is unchanged |
| `DerivedViews.DistinctCount` | src/components/EmployeeDirectory.jsx:60 | the number of distinct values is the size of their set |
| `DerivedViews.Departments` | src/components/EmployeeDirectory.jsx:51-54 | no repeats, exactly the departments present, in first-seen order |
| `DerivedViews.RoundedAverage` | src/components/EmployeeDirectory.jsx:58-59 | NaN iff the count is 0; otherwise the integer nearest sum/count, a half rounded up |
| `DerivedViews.ExactAverage` | src/components/EmployeeDirectory.jsx:58-59 | a whole-number mean is shown as is |
| `DerivedViews.Total` | src/components/EmployeeDirectory.jsx:58-59 | the `reduce` sum of a numeric column: 0 for an empty list, at least every single value in the list |
| `DerivedViews.TotalPermutation` | src/components/EmployeeDirectory.jsx:58-59 | the salary and age totals do not depend on record order |
| `DerivedViews.LocationCount` | src/components/EmployeeDirectory.jsx:60 | the location count is the size of the set of locations |
| `DerivedViews.StatisticsOf` | src/components/EmployeeDirectory.jsx:56-61 | count is the length; averages NaN iff the list is empty, else rounded means of the totals; locations is the number of distinct locations |
| `DerivedViews.StatisticsPermutation` | src/components/EmployeeDirectory.jsx:56-61 | reordering the records leaves every statistic unchanged |
| `Search.FieldTexts` | src/components/EmployeeDirectory.jsx:79-80 | seven texts, each one of the field texts and every field text among them: the decimal texts of id, age and salary and the four string fields verbatim |
| `Search.InDepartment` | src/components/EmployeeDirectory.jsx:78 | the drop-down passes a record when it is "all" or the record's department |
| `Search.MatchesQuery` | src/components/EmployeeDirectory.jsx:79-81 | some field text, lowered, includes the lowered query |
| `Search.Shown` | src/components/EmployeeDirectory.jsx:78-81 | a record is shown when it passes the department gate and the query |
| `Search.Filter` | src/components/EmployeeDirectory.jsx:76-84 | an order-preserving subsequence; each record appears as often as in the list if it passes both gates, otherwise not at all |
| `Search.FilterSnoc` | src/components/EmployeeDirectory.jsx:76-84 | appending a record to the list appends it to the display iff it is shown, and leaves the display as it was otherwise |
| `Search.FilterSnocHidden` | src/components/EmployeeDirectory.jsx:78 | appending a record the drop-down turns away leaves the display unchanged |
| `Search.FilterMembership` | src/components/EmployeeDirectory.jsx:78-81 | a record is shown iff it is in the list, passes the department gate and some lowered field includes the lowered query |
| `Search.MatchesQueryIffOccurs` | src/components/EmployeeDirectory.jsx:79-81 | the search matches iff the lowered query occurs at some position of some lowered field |
| `Search.QueryCaseInsensitive` | src/components/EmployeeDirectory.jsx:80 | lowering the query first changes nothing |
| `Search.EmptyQueryMatches` | src/components/EmployeeDirectory.jsx:80 | the empty query matches every record |
| `Search.FilterShowsAll` | src/components/EmployeeDirectory.jsx:76-84 | empty query with "all" shows the whole list |
| `Search.FilterAbsentDepartment` | src/components/EmployeeDirectory.jsx:78 | a department no record has shows nothing |
| `Search.FilterIdempotent` | src/components/EmployeeDirectory.jsx:76-84 | filtering twice is filtering once |
| `Directory.NextDirection` | src/components/EmployeeDirectory.jsx:64 | the next direction is ascending (1) iff the clicked column is not the current one or the current direction is descending; otherwise descending |
| `Directory.DirectionAfter` | src/components/EmployeeDirectory.jsx:63-66 | after `k` clicks on the current column the direction is flipped `k` times (kept for even `k`, flipped for odd); after `k > 0` clicks on another column it is ascending for odd `k`, descending for even `k` |
| `Directory.SortOutcome` | src/components/EmployeeDirectory.jsx:68-73 | the sorted copy is a permutation, ordered by the column in the direction, stable on ties, with the same statistics |
| `Directory.EmployeeDirectory.constructor` | src/components/EmployeeDirectory.jsx:45-49 | initial state: empty query, no sort column, direction 1, cards, "all" |
| `Directory.EmployeeDirectory.DepartmentChoices` | src/components/EmployeeDirectory.jsx:51-54 | the department choices of the current list have no repeats, are exactly its departments, and are listed in the order in which the list first mentions them |
| `Directory.EmployeeDirectory.StatisticsCards` | src/components/EmployeeDirectory.jsx:56-61 | the count is the list's length; each average is NaN iff the list is empty, otherwise within a half of the column total divided by the length (a half rounded up); the location count is the number of distinct locations |
| `Directory.EmployeeDirectory.FilteredEmployees` | src/components/EmployeeDirectory.jsx:76-84 | an order-preserving subsequence of the list; a record passing both gates appears as often as in the list, any other record not at all |
| `Directory.EmployeeDirectory.HandleSort` | src/components/EmployeeDirectory.jsx:63-74 | column set; direction flipped on the same column, else 1; list replaced by its stable sort, a permutation ordered by the column with ties in prior order and unchanged statistics; nothing else changes |
| `Directory.EmployeeDirectory.SetSearchQuery` | src/components/EmployeeDirectory.jsx:142 | only the query changes |
| `Directory.EmployeeDirectory.SetFilterDepartment` | src/components/EmployeeDirectory.jsx:150 | only the department filter changes |
| `Directory.EmployeeDirectory.SetViewMode` | src/components/EmployeeDirectory.jsx:160-170 | only the view mode changes |
| `Scenario.Seed` | src/components/EmployeeDirectory.jsx:6-43 | the component starts with four records |
| `Scenario.SeedStatistics` | src/components/EmployeeDirectory.jsx:56-61 | for the seed: 4 employees, average salary 2750, average age 34, 4 locations |
| `Scenario.SeedDepartments` | src/components/EmployeeDirectory.jsx:51-54 | for the seed: Engineering, Design, Marketing, Sales |
| `Scenario.SeedDesignFilter` | src/components/EmployeeDirectory.jsx:76-84 | for the seed, "Design" with an empty query shows only Jonathan |
| `Scenario.SeedSalarySort` | src/components/EmployeeDirectory.jsx:63-73 | for the seed, a first click on Salary sorts ascending (1000, 2000, 3000, 5000: the seed order) and a second click descending (Cecil, Jeyakumari, Jonathan, Nathanael) |

## Left out

- The JSX markup, layout, CSS classes and icons, and the "Add Employee" button, which has no handler.
- React's `useState`/`useMemo` timing. The memos are functions of the current fields, and each setter is a field assignment.
- `toLowerCase` beyond the ASCII letters. Other characters are left unchanged.
- JavaScript compares strings by UTF-16 code units. The model compares characters.
- Floating-point division. Ages and salaries are natural numbers, and `Math.round(sum / count)` is computed exactly in integers.
- JavaScript numbers are doubles; the model's are exact naturals. `DerivedViews.Total`, `Employees.KeyLess` and `Text.Decimal` agree with JavaScript only while every age, salary, id and total is below 2^53, and `Decimal` is `toString` only below 10^21, where JavaScript switches to exponent notation (`1e+21`). Negative and fractional numbers are not modelled.
- Image URLs are never fetched. They are one more string in the search.
- `handleSort` is modelled only for the four columns the table header offers. Those are the only columns its callers pass.
- `viewMode` is kept as a two-value field. Only the markup reads it.
- Scenario: the search "sea" on the seed records, which shows only the Sealiyur record, is not proved. Proving it means ruling out "sea" in every field text, including the long image URLs.
