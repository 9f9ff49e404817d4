/** `filteredEmployees`: the department gate AND-ed with a case-insensitive
    substring search over every field value of a record. */
module Search {
  import opened Text
  import opened Employees

  /** `Object.values(emp).map(value => value.toString())`: every field of the
      record as text, in declaration order; numbers are written in decimal. */
  function FieldTexts(e: Employee): (texts: seq<string>)
    ensures |texts| == 7
    ensures e.name in texts && e.location in texts && e.department in texts && e.image in texts
    ensures Decimal(e.id) in texts && Decimal(e.age) in texts && Decimal(e.salary) in texts
    ensures forall i | 0 <= i < |texts| ::
      texts[i] in {Decimal(e.id), e.name, Decimal(e.age), e.location, Decimal(e.salary), e.department, e.image}
  {
    [Decimal(e.id), e.name, Decimal(e.age), e.location, Decimal(e.salary), e.department, e.image]
  }

  /** Some field's lower-cased text contains the lower-cased query. */
  predicate MatchesQuery(e: Employee, query: string)
  {
    exists i | 0 <= i < |FieldTexts(e)| :: Includes(Lower(FieldTexts(e)[i]), Lower(query))
  }

  /** The department drop-down lets the record through. */
  predicate InDepartment(e: Employee, department: string)
  {
    department == "all" || e.department == department
  }

  predicate Shown(e: Employee, query: string, department: string)
  {
    InDepartment(e, department) && MatchesQuery(e, query)
  }

  /** `r` is `s` with some elements dropped and the rest in their order. */
  predicate IsSubsequence(r: seq<Employee>, s: seq<Employee>)
    decreases |s|
  {
    r == [] || (
      s != [] && (
        (r[|r| - 1] == s[|s| - 1] && IsSubsequence(r[..|r| - 1], s[..|s| - 1]))
        || IsSubsequence(r, s[..|s| - 1])))
  }

  /** The records on display: those of `s` that the department and the query
      both let through, in their order in `s`, each as often as in `s`. */
  function Filter(s: seq<Employee>, query: string, department: string): (r: seq<Employee>)
    ensures IsSubsequence(r, s)
    ensures forall e :: multiset(r)[e] == if Shown(e, query, department) then multiset(s)[e] else 0
  {
    if s == [] then []
    else
      var init, last := s[..|s| - 1], s[|s| - 1];
      var kept := Filter(init, query, department);
      InitPlusLast(s);
      SubsequenceExtend(kept, init, last);
      if Shown(last, query, department) then kept + [last] else kept
  }

  lemma InitPlusLast(s: seq<Employee>)
    requires s != []
    ensures s == s[..|s| - 1] + [s[|s| - 1]]
  {
  }

  lemma SubsequenceExtend(r: seq<Employee>, s: seq<Employee>, x: Employee)
    requires IsSubsequence(r, s)
    ensures IsSubsequence(r + [x], s + [x]) && IsSubsequence(r, s + [x])
  {
    assert (r + [x])[..|r|] == r;
    assert (s + [x])[..|s|] == s;
  }

  /** Appending a record to the list appends it to the display exactly when it
      passes both tests. */
  lemma FilterSnoc(s: seq<Employee>, x: Employee, query: string, department: string)
    ensures Filter(s + [x], query, department) ==
      if Shown(x, query, department) then Filter(s, query, department) + [x]
      else Filter(s, query, department)
  {
    assert (s + [x])[..|s|] == s;
  }

  /** Appending a record the drop-down turns away leaves the display as it was. */
  lemma FilterSnocHidden(s: seq<Employee>, x: Employee, query: string, department: string)
    requires !InDepartment(x, department)
    ensures Filter(s + [x], query, department) == Filter(s, query, department)
  {
    FilterSnoc(s, x, query, department);
  }

  /** A record is on display exactly when it is in the list and passes both tests. */
  lemma FilterMembership(s: seq<Employee>, query: string, department: string, e: Employee)
    ensures e in Filter(s, query, department) <==>
      e in s && InDepartment(e, department)
      && exists i | 0 <= i < 7 :: Includes(Lower(FieldTexts(e)[i]), Lower(query))
  {
    assert e in Filter(s, query, department) <==> e in multiset(Filter(s, query, department));
    assert e in s <==> e in multiset(s);
  }

  /** The query matches when its lower-cased text occurs at some position of
      some field's lower-cased text. */
  lemma {:induction false} MatchesQueryIffOccurs(e: Employee, query: string)
    ensures MatchesQuery(e, query) <==>
      exists i, p | 0 <= i < 7 :: OccursAt(Lower(FieldTexts(e)[i]), Lower(query), p)
  {
    forall i | 0 <= i < 7 {
      IncludesIffOccurs(Lower(FieldTexts(e)[i]), Lower(query));
    }
  }

  /** Upper- and lower-case letters of the query are not told apart. */
  lemma QueryCaseInsensitive(e: Employee, query: string)
    ensures MatchesQuery(e, Lower(query)) == MatchesQuery(e, query)
  {
    LowerIdempotent(query);
  }

  /** The starting state, an empty query and "all" departments, shows the whole list. */
  lemma {:induction false} FilterShowsAll(s: seq<Employee>)
    ensures Filter(s, "", "all") == s
  {
    if s != [] {
      var init, last := s[..|s| - 1], s[|s| - 1];
      FilterShowsAll(init);
      EmptyQueryMatches(last);
      assert Shown(last, "", "all");
      calc {
        Filter(s, "", "all");
        Filter(init, "", "all") + [last];
        init + [last];
        { InitPlusLast(s); }
        s;
      }
    }
  }

  /** A department that no record has shows nothing. */
  lemma {:induction false} FilterAbsentDepartment(s: seq<Employee>, query: string, department: string)
    requires department != "all"
    requires forall e | e in s :: e.department != department
    ensures Filter(s, query, department) == []
  {
    if s != [] {
      FilterAbsentDepartment(s[..|s| - 1], query, department);
    }
  }

  /** With an empty query the department gate alone decides. */
  lemma {:induction false} EmptyQueryMatches(e: Employee)
    ensures MatchesQuery(e, "")
  {
    EmptyIncluded(Lower(FieldTexts(e)[0]));
    assert Lower("") == "";
  }

  /** Filtering what is already filtered changes nothing. */
  lemma {:induction false} FilterIdempotent(s: seq<Employee>, query: string, department: string)
    ensures Filter(Filter(s, query, department), query, department) == Filter(s, query, department)
  {
    if s != [] {
      var init := s[..|s| - 1];
      var last := s[|s| - 1];
      FilterIdempotent(init, query, department);
      if Shown(last, query, department) {
        var r := Filter(s, query, department);
        assert r[..|r| - 1] == Filter(init, query, department);
      }
    }
  }
}
