/** `Array.prototype.sort(comparefn)`: an in-place sort of an array, stable
    (ties keep their order) as ECMA-262 requires since its 2019 edition. The
    comparator returns a negative number when its first argument goes first,
    a positive one when it goes after, and zero on a tie. */
module ArraySort {

  /** What the sort asks of a comparator: swapping the arguments flips the sign,
      and "not after" is transitive, strictly so when the first step is strict. */
  ghost predicate Consistent<T(!new)>(cmp: (T, T) -> int)
  {
    && (forall a, b :: cmp(a, b) < 0 <==> cmp(b, a) > 0)
    && (forall a, b, e :: cmp(a, b) <= 0 && cmp(b, e) <= 0 ==> cmp(a, e) <= 0)
    && (forall a, b, e :: cmp(a, b) < 0 && cmp(b, e) <= 0 ==> cmp(a, e) < 0)
  }

  /** No element stands after a later one that the comparator puts first. */
  ghost predicate Sorted<T>(s: seq<T>, cmp: (T, T) -> int)
  {
    forall i, j | 0 <= i < j < |s| :: cmp(s[i], s[j]) <= 0
  }

  /** The elements of `s` that tie with `y`, in their order in `s`. */
  function Ties<T>(s: seq<T>, y: T, cmp: (T, T) -> int): seq<T>
  {
    if s == [] then []
    else (if cmp(s[0], y) == 0 then [s[0]] else []) + Ties(s[1..], y, cmp)
  }

  // ---------------------------------------------------------------------------
  // The result of the sort, as a function: each element in input order is
  // inserted after everything that does not come strictly after it

  function Insert<T>(x: T, t: seq<T>, cmp: (T, T) -> int): (r: seq<T>)
    ensures |r| == |t| + 1
  {
    if t == [] then [x]
    else if cmp(x, t[0]) < 0 then [x] + t
    else [t[0]] + Insert(x, t[1..], cmp)
  }

  function StableSort<T>(s: seq<T>, cmp: (T, T) -> int): (r: seq<T>)
    ensures |r| == |s|
  {
    if s == [] then [] else Insert(s[|s| - 1], StableSort(s[..|s| - 1], cmp), cmp)
  }

  lemma {:induction false} InsertPermutes<T>(x: T, t: seq<T>, cmp: (T, T) -> int)
    ensures multiset(Insert(x, t, cmp)) == multiset(t) + multiset{x}
  {
    if t != [] && cmp(x, t[0]) >= 0 {
      InsertPermutes(x, t[1..], cmp);
      assert t == [t[0]] + t[1..];
    }
  }

  /** The sort neither adds nor loses elements. */
  lemma {:induction false} StableSortPermutes<T>(s: seq<T>, cmp: (T, T) -> int)
    ensures multiset(StableSort(s, cmp)) == multiset(s)
  {
    if s != [] {
      StableSortPermutes(s[..|s| - 1], cmp);
      InsertPermutes(s[|s| - 1], StableSort(s[..|s| - 1], cmp), cmp);
      assert s == s[..|s| - 1] + [s[|s| - 1]];
    }
  }

  lemma {:induction false} InsertSorted<T(!new)>(x: T, t: seq<T>, cmp: (T, T) -> int)
    requires Consistent(cmp) && Sorted(t, cmp)
    ensures Sorted(Insert(x, t, cmp), cmp)
  {
    if t == [] {
    } else if cmp(x, t[0]) < 0 {
      forall j | 0 <= j < |t| ensures cmp(x, t[j]) <= 0 {
        if j > 0 {
          assert cmp(t[0], t[j]) <= 0;
        }
      }
      SortedCons(x, t, cmp);
    } else {
      InsertSorted(x, t[1..], cmp);
      assert cmp(t[0], x) <= 0;
      HeadBeforeInserted(x, t, cmp);
      SortedCons(t[0], Insert(x, t[1..], cmp), cmp);
    }
  }

  lemma SortedCons<T>(h: T, rest: seq<T>, cmp: (T, T) -> int)
    requires Sorted(rest, cmp)
    requires forall j | 0 <= j < |rest| :: cmp(h, rest[j]) <= 0
    ensures Sorted([h] + rest, cmp)
  {
    var r := [h] + rest;
    forall i, j | 0 <= i < j < |r| ensures cmp(r[i], r[j]) <= 0 {
      assert r[j] == rest[j - 1];
      if i > 0 {
        assert r[i] == rest[i - 1];
      }
    }
  }

  /** The head of a sorted `t` that `x` does not precede comes before
      everything in `x` inserted into the tail. */
  lemma HeadBeforeInserted<T>(x: T, t: seq<T>, cmp: (T, T) -> int)
    requires Sorted(t, cmp) && t != [] && cmp(t[0], x) <= 0
    ensures forall j | 0 <= j < |Insert(x, t[1..], cmp)| :: cmp(t[0], Insert(x, t[1..], cmp)[j]) <= 0
  {
    var rest := Insert(x, t[1..], cmp);
    InsertPermutes(x, t[1..], cmp);
    forall j | 0 <= j < |rest| ensures cmp(t[0], rest[j]) <= 0 {
      assert rest[j] in multiset(rest);
      if rest[j] != x {
        assert rest[j] in multiset(t[1..]);
        var k :| 0 <= k < |t| - 1 && t[1..][k] == rest[j];
        assert t[k + 1] == rest[j];
      }
    }
  }

  /** The result is in comparator order. */
  lemma {:induction false} StableSortSorted<T(!new)>(s: seq<T>, cmp: (T, T) -> int)
    requires Consistent(cmp)
    ensures Sorted(StableSort(s, cmp), cmp)
  {
    if s != [] {
      StableSortSorted(s[..|s| - 1], cmp);
      InsertSorted(s[|s| - 1], StableSort(s[..|s| - 1], cmp), cmp);
    }
  }

  // ---------------------------------------------------------------------------
  // Stability

  lemma {:induction false} TiesAppend<T>(a: seq<T>, b: seq<T>, y: T, cmp: (T, T) -> int)
    ensures Ties(a + b, y, cmp) == Ties(a, y, cmp) + Ties(b, y, cmp)
  {
    if a == [] {
      assert a + b == b;
    } else {
      var head := if cmp(a[0], y) == 0 then [a[0]] else [];
      calc {
        Ties(a + b, y, cmp);
        { assert (a + b)[0] == a[0]; assert (a + b)[1..] == a[1..] + b; }
        head + Ties(a[1..] + b, y, cmp);
        { TiesAppend(a[1..], b, y, cmp); }
        head + (Ties(a[1..], y, cmp) + Ties(b, y, cmp));
        Ties(a, y, cmp) + Ties(b, y, cmp);
      }
    }
  }

  lemma {:induction false} TiesNone<T>(t: seq<T>, y: T, cmp: (T, T) -> int)
    requires forall m | 0 <= m < |t| :: cmp(t[m], y) != 0
    ensures Ties(t, y, cmp) == []
  {
    if t != [] {
      TiesNone(t[1..], y, cmp);
    }
  }

  lemma TiesSingleton<T>(x: T, y: T, cmp: (T, T) -> int)
    ensures Ties([x], y, cmp) == if cmp(x, y) == 0 then [x] else []
  {
    assert [x][1..] == [];
  }

  /** When `x` comes strictly before the first element of the sorted `t`,
      nothing in `t` ties with it. */
  lemma FrontHasNoTie<T(!new)>(x: T, t: seq<T>, y: T, cmp: (T, T) -> int)
    requires Consistent(cmp) && Sorted(t, cmp) && t != [] && cmp(x, t[0]) < 0
    requires cmp(x, y) == 0
    ensures forall m | 0 <= m < |t| :: cmp(t[m], y) != 0
  {
    forall m | 0 <= m < |t| ensures cmp(t[m], y) != 0 {
      if m > 0 {
        assert cmp(t[0], t[m]) <= 0;
      }
      assert cmp(x, t[m]) < 0;
      assert cmp(y, x) <= 0;
    }
  }

  lemma InsertStableFront<T(!new)>(x: T, t: seq<T>, y: T, cmp: (T, T) -> int)
    requires Consistent(cmp) && Sorted(t, cmp) && t != [] && cmp(x, t[0]) < 0
    ensures Ties([x] + t, y, cmp) == Ties(t, y, cmp) + (if cmp(x, y) == 0 then [x] else [])
  {
    TiesAppend([x], t, y, cmp);
    TiesSingleton(x, y, cmp);
    if cmp(x, y) == 0 {
      FrontHasNoTie(x, t, y, cmp);
      TiesNone(t, y, cmp);
    }
  }

  lemma {:induction false} InsertStable<T(!new)>(x: T, t: seq<T>, y: T, cmp: (T, T) -> int)
    requires Consistent(cmp) && Sorted(t, cmp)
    ensures Ties(Insert(x, t, cmp), y, cmp)
         == Ties(t, y, cmp) + (if cmp(x, y) == 0 then [x] else [])
  {
    if t == [] {
      TiesSingleton(x, y, cmp);
    } else if cmp(x, t[0]) < 0 {
      InsertStableFront(x, t, y, cmp);
    } else {
      SortedTail(t, cmp);
      InsertStable(x, t[1..], y, cmp);
      InsertStableLater(x, t, y, cmp);
    }
  }

  lemma SortedTail<T>(t: seq<T>, cmp: (T, T) -> int)
    requires Sorted(t, cmp) && t != []
    ensures Sorted(t[1..], cmp)
  {
  }

  /** When `x` goes after the head, the head's tie status is kept in front of
      whatever inserting into the tail gives. */
  lemma InsertStableLater<T>(x: T, t: seq<T>, y: T, cmp: (T, T) -> int)
    requires t != [] && cmp(x, t[0]) >= 0
    requires Ties(Insert(x, t[1..], cmp), y, cmp)
          == Ties(t[1..], y, cmp) + (if cmp(x, y) == 0 then [x] else [])
    ensures Ties(Insert(x, t, cmp), y, cmp)
         == Ties(t, y, cmp) + (if cmp(x, y) == 0 then [x] else [])
  {
    var own := if cmp(x, y) == 0 then [x] else [];
    var head := [t[0]];
    calc {
      Ties(Insert(x, t, cmp), y, cmp);
      Ties(head + Insert(x, t[1..], cmp), y, cmp);
      { TiesAppend(head, Insert(x, t[1..], cmp), y, cmp); }
      Ties(head, y, cmp) + Ties(Insert(x, t[1..], cmp), y, cmp);
      Ties(head, y, cmp) + (Ties(t[1..], y, cmp) + own);
      { TiesAppend(head, t[1..], y, cmp); assert t == head + t[1..]; }
      Ties(t, y, cmp) + own;
    }
  }

  /** Elements that tie keep their relative order: for every `y`, the elements
      tying with `y` form the same subsequence before and after the sort. */
  lemma {:induction false} StableSortStable<T(!new)>(s: seq<T>, y: T, cmp: (T, T) -> int)
    requires Consistent(cmp)
    ensures Ties(StableSort(s, cmp), y, cmp) == Ties(s, y, cmp)
  {
    if s != [] {
      var init, last := s[..|s| - 1], s[|s| - 1];
      calc {
        Ties(StableSort(s, cmp), y, cmp);
        Ties(Insert(last, StableSort(init, cmp), cmp), y, cmp);
        { StableSortSorted(init, cmp); InsertStable(last, StableSort(init, cmp), y, cmp); }
        Ties(StableSort(init, cmp), y, cmp) + (if cmp(last, y) == 0 then [last] else []);
        { StableSortStable(init, y, cmp); TiesSingleton(last, y, cmp); }
        Ties(init, y, cmp) + Ties([last], y, cmp);
        { TiesAppend(init, [last], y, cmp); assert s == init + [last]; }
        Ties(s, y, cmp);
      }
    }
  }

  /** A list in which no element goes strictly before an earlier one comes
      back unchanged. */
  lemma {:induction false} StableSortOfOrdered<T>(s: seq<T>, cmp: (T, T) -> int)
    requires forall i, j | 0 <= i < j < |s| :: cmp(s[j], s[i]) >= 0
    ensures StableSort(s, cmp) == s
  {
    if s != [] {
      var init, last := s[..|s| - 1], s[|s| - 1];
      StableSortOfOrdered(init, cmp);
      InsertAfterAll(last, init, cmp);
      assert s == init + [last];
    }
  }

  lemma {:induction false} InsertAfterAll<T>(x: T, t: seq<T>, cmp: (T, T) -> int)
    requires forall k | 0 <= k < |t| :: cmp(x, t[k]) >= 0
    ensures Insert(x, t, cmp) == t + [x]
  {
    if t != [] {
      InsertAfterAll(x, t[1..], cmp);
      assert t == [t[0]] + t[1..];
    }
  }

  /** `s` backwards. */
  function Reversed<T>(s: seq<T>): (r: seq<T>)
    ensures |r| == |s|
    ensures forall k | 0 <= k < |s| :: r[k] == s[|s| - 1 - k]
  {
    if s == [] then [] else [s[|s| - 1]] + Reversed(s[..|s| - 1])
  }

  /** A list in which every element goes strictly before each earlier one
      comes back reversed. */
  lemma {:induction false} StableSortOfReversed<T>(s: seq<T>, cmp: (T, T) -> int)
    requires forall i, j | 0 <= i < j < |s| :: cmp(s[j], s[i]) < 0
    ensures StableSort(s, cmp) == Reversed(s)
  {
    if s != [] {
      var init, last := s[..|s| - 1], s[|s| - 1];
      StableSortOfReversed(init, cmp);
      assert s == init + [last];
    }
  }

  // ---------------------------------------------------------------------------
  // The sort as an in-place algorithm on the array

  /** Where the insertion scan stops: `x` goes in front of the part of `t`
      that comes strictly after it. */
  lemma {:induction false} InsertAt<T>(x: T, t: seq<T>, j: nat, cmp: (T, T) -> int)
    requires j <= |t|
    requires forall m | 0 <= m < j :: cmp(x, t[m]) >= 0
    requires j < |t| ==> cmp(x, t[j]) < 0
    ensures Insert(x, t, cmp) == t[..j] + [x] + t[j..]
  {
    if j == 0 {
      assert t[..j] + [x] + t[j..] == [x] + t;
    } else {
      var tail := t[1..];
      InsertAt(x, tail, j - 1, cmp);
      assert t[..j] == [t[0]] + tail[..j - 1];
      assert t[j..] == tail[j - 1..];
    }
  }

  /** The scan from the right stopped at `j` in a sorted `t`, so nothing
      before `j` comes strictly after `x`. */
  lemma StopIsInsertionPoint<T(!new)>(x: T, t: seq<T>, j: nat, cmp: (T, T) -> int)
    requires Consistent(cmp) && Sorted(t, cmp) && j <= |t|
    requires j > 0 ==> cmp(x, t[j - 1]) >= 0
    ensures forall m | 0 <= m < j :: cmp(x, t[m]) >= 0
  {
    forall m | 0 <= m < j ensures cmp(x, t[m]) >= 0 {
      if m < j - 1 {
        assert cmp(t[m], t[j - 1]) <= 0;
      }
    }
  }

  /** One step of insertion sort: shifts right the elements before `a[i]` that,
      scanning from the right, come strictly after it, and drops `a[i]` into the
      gap at `j`. */
  method InsertLast<T>(a: array<T>, i: nat, cmp: (T, T) -> int) returns (j: nat)
    requires i < a.Length
    modifies a
    ensures j <= i
    ensures a[..i + 1] == old(a[..i])[..j] + [old(a[i])] + old(a[..i])[j..]
    ensures a[i + 1..] == old(a[i + 1..])
    ensures j > 0 ==> cmp(old(a[i]), old(a[..i])[j - 1]) >= 0
    ensures forall m | j <= m < i :: cmp(old(a[i]), old(a[..i])[m]) < 0
  {
    var x := a[i];
    j := i;
    while j > 0 && cmp(x, a[j - 1]) < 0
      invariant 0 <= j <= i
      invariant forall m | 0 <= m < j :: a[m] == old(a[m])
      invariant forall m | j < m <= i :: a[m] == old(a[m - 1])
      invariant forall m | i < m < a.Length :: a[m] == old(a[m])
      invariant forall m | j <= m < i :: cmp(x, old(a[m])) < 0
    {
      a[j] := a[j - 1];
      j := j - 1;
    }
    a[j] := x;
    ghost var t := old(a[..i]);
    ghost var g := t[..j] + [x] + t[j..];
    assert forall m | 0 <= m < j :: g[m] == t[m];
    assert forall m | j < m <= i :: g[m] == t[m - 1];
    assert a[..i + 1] == g;
    assert a[i + 1..] == old(a[i + 1..]);
  }

  /** In a sorted `t`, `x` goes exactly into the gap where a scan from the
      right stops. */
  lemma InsertIntoGap<T(!new)>(x: T, t: seq<T>, j: nat, cmp: (T, T) -> int)
    requires Consistent(cmp) && Sorted(t, cmp) && j <= |t|
    requires j > 0 ==> cmp(x, t[j - 1]) >= 0
    requires forall m | j <= m < |t| :: cmp(x, t[m]) < 0
    ensures Insert(x, t, cmp) == t[..j] + [x] + t[j..]
  {
    StopIsInsertionPoint(x, t, j, cmp);
    InsertAt(x, t, j, cmp);
  }

  /** One insertion step keeps the loop invariant of the sort: the prefix
      holds the stable order of the input's prefix, the rest is untouched. */
  lemma InsertionStep<T>(s: seq<T>, i: nat, before: seq<T>, after: seq<T>, cmp: (T, T) -> int)
    requires i < |s| == |before| == |after|
    requires before[..i] == StableSort(s[..i], cmp) && before[i..] == s[i..]
    requires after[..i + 1] == Insert(before[i], before[..i], cmp)
    requires after[i + 1..] == before[i + 1..]
    ensures after[..i + 1] == StableSort(s[..i + 1], cmp)
    ensures after[i + 1..] == s[i + 1..]
  {
    assert before[i] == s[i] by { assert before[i..][0] == s[i..][0]; }
    assert s[..i + 1][..i] == s[..i];
    assert before[i + 1..] == before[i..][1..];
  }

  /** Insertion sort in place: the array ends up in exactly the stable order. */
  method Sort<T(!new)>(a: array<T>, cmp: (T, T) -> int)
    requires Consistent(cmp)
    modifies a
    ensures a[..] == StableSort(old(a[..]), cmp)
  {
    ghost var s := a[..];
    var i := 0;
    while i < a.Length
      invariant 0 <= i <= a.Length == |s|
      invariant a[..i] == StableSort(s[..i], cmp)
      invariant a[i..] == s[i..]
    {
      ghost var before := a[..];
      var j := InsertLast(a, i, cmp);
      StableSortSorted(s[..i], cmp);
      InsertIntoGap(before[i], before[..i], j, cmp);
      InsertionStep(s, i, before, a[..], cmp);
      i := i + 1;
    }
    assert s[..i] == s;
  }
}
