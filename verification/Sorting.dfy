/** A stable sort, and what alone determines its result. */
module Sorting {

  type Compare<!T> = (T, T) -> int

  /** A consistent comparator: a total preorder, negative for before and zero for a tie. */
  ghost predicate Comparator<T(!new)>(cmp: Compare<T>) {
    && (forall a, b :: cmp(a, b) <= 0 || cmp(b, a) <= 0)
    && (forall a, b :: cmp(a, b) < 0 <==> cmp(b, a) > 0)
    && (forall a, b, c :: cmp(a, b) <= 0 && cmp(b, c) <= 0 ==> cmp(a, c) <= 0)
  }

  function Insert<T>(cmp: Compare<T>, x: T, s: seq<T>): seq<T> {
    if s == [] || cmp(x, s[0]) <= 0 then [x] + s else [s[0]] + Insert(cmp, x, s[1..])
  }

  /** The stable sort: equal elements keep their order. */
  function Sort<T>(cmp: Compare<T>, s: seq<T>): seq<T> {
    if s == [] then [] else Insert(cmp, s[0], Sort(cmp, s[1..]))
  }

  predicate Sorted<T>(cmp: Compare<T>, s: seq<T>) {
    |s| <= 1 || (cmp(s[0], s[1]) <= 0 && Sorted(cmp, s[1..]))
  }

  /** The elements that compare equal to x, in their order. */
  function Ties<T>(cmp: Compare<T>, s: seq<T>, x: T): seq<T> {
    if s == [] then [] else (if cmp(s[0], x) == 0 then [s[0]] else []) + Ties(cmp, s[1..], x)
  }

  /** The same elements of every class of equal elements, in the same order. */
  ghost predicate SameTies<T(!new)>(cmp: Compare<T>, s: seq<T>, t: seq<T>) {
    forall x :: Ties(cmp, s, x) == Ties(cmp, t, x)
  }

  lemma {:induction false} InsertSorted<T(!new)>(cmp: Compare<T>, x: T, s: seq<T>)
    requires Comparator(cmp) && Sorted(cmp, s)
    ensures Sorted(cmp, Insert(cmp, x, s))
  {
    if s == [] || cmp(x, s[0]) <= 0 {
      assert ([x] + s)[1..] == s;
    } else {
      InsertSorted(cmp, x, s[1..]);
      var rest := Insert(cmp, x, s[1..]);
      assert ([s[0]] + rest)[1..] == rest;
      assert cmp(s[0], x) <= 0;
    }
  }

  lemma TieWithBoth<T(!new)>(cmp: Compare<T>, x: T, y: T, z: T)
    requires Comparator(cmp)
    ensures cmp(x, y) == 0 && cmp(z, y) == 0 ==> cmp(x, z) == 0
  {
    if cmp(x, y) == 0 && cmp(z, y) == 0 {
      assert cmp(y, x) <= 0 && cmp(y, z) <= 0;
    }
  }

  lemma {:induction false} InsertTies<T(!new)>(cmp: Compare<T>, x: T, s: seq<T>, y: T)
    requires Comparator(cmp)
    ensures Ties(cmp, Insert(cmp, x, s), y) == Ties(cmp, [x] + s, y)
  {
    assert ([x] + s)[1..] == s;
    if s != [] && cmp(x, s[0]) > 0 {
      InsertTies(cmp, x, s[1..], y);
      var rest := Insert(cmp, x, s[1..]);
      assert ([s[0]] + rest)[1..] == rest && ([x] + s[1..])[1..] == s[1..];
      TieWithBoth(cmp, x, y, s[0]);
    }
  }

  /** Sorting sorts, and leaves every class of equal elements in its order. */
  lemma {:induction false} SortIsStable<T(!new)>(cmp: Compare<T>, s: seq<T>)
    requires Comparator(cmp)
    ensures Sorted(cmp, Sort(cmp, s))
    ensures SameTies(cmp, Sort(cmp, s), s)
  {
    if s != [] {
      var rest := Sort(cmp, s[1..]);
      SortIsStable(cmp, s[1..]);
      InsertSorted(cmp, s[0], rest);
      forall x ensures Ties(cmp, Sort(cmp, s), x) == Ties(cmp, s, x) {
        InsertTies(cmp, s[0], rest, x);
        assert ([s[0]] + rest)[1..] == rest;
      }
    }
  }

  /** In a sorted list the first element is least. */
  lemma {:induction false} FirstIsLeast<T(!new)>(cmp: Compare<T>, s: seq<T>, i: nat)
    requires Comparator(cmp) && Sorted(cmp, s) && i < |s|
    ensures cmp(s[0], s[i]) <= 0
  {
    if i > 1 {
      FirstIsLeast(cmp, s[1..], i - 1);
    } else {
      assert cmp(s[0], s[0]) <= 0;
    }
  }

  lemma {:induction false} SortedPairs<T(!new)>(cmp: Compare<T>, s: seq<T>, i: nat, j: nat)
    requires Comparator(cmp) && Sorted(cmp, s) && i <= j < |s|
    ensures cmp(s[i], s[j]) <= 0
  {
    if i == 0 { FirstIsLeast(cmp, s, j); } else { SortedPairs(cmp, s[1..], i - 1, j - 1); }
  }

  lemma {:induction false} TiesHas<T(!new)>(cmp: Compare<T>, s: seq<T>, x: T)
    ensures forall y :: y in Ties(cmp, s, x) <==> y in s && cmp(y, x) == 0
  {
    if s != [] {
      TiesHas(cmp, s[1..], x);
      assert s == [s[0]] + s[1..];
    }
  }

  /** Two sorted lists that order every class of equal elements alike are one list. */
  lemma {:induction false} SortedIsUnique<T(!new)>(cmp: Compare<T>, s: seq<T>, t: seq<T>)
    requires Comparator(cmp) && Sorted(cmp, s) && Sorted(cmp, t)
    requires SameTies(cmp, s, t)
    ensures s == t
  {
    if s == [] || t == [] {
      if s != [] { NonEmptyToo(cmp, s, t); }
      if t != [] { NonEmptyToo(cmp, t, s); }
    } else {
      HeadsTie(cmp, s, t);
      HeadsTie(cmp, t, s);
      assert Ties(cmp, s, s[0])[0] == s[0] && Ties(cmp, t, s[0])[0] == t[0];
      forall x ensures Ties(cmp, s[1..], x) == Ties(cmp, t[1..], x) {
        var a, b := Ties(cmp, s, x), Ties(cmp, t, x);
        assert a == (if cmp(s[0], x) == 0 then [s[0]] else []) + Ties(cmp, s[1..], x);
        assert b == (if cmp(s[0], x) == 0 then [s[0]] else []) + Ties(cmp, t[1..], x);
        assert Ties(cmp, s[1..], x) == if cmp(s[0], x) == 0 then a[1..] else a;
      }
      SortedIsUnique(cmp, s[1..], t[1..]);
      assert s == [s[0]] + s[1..] && t == [t[0]] + t[1..];
    }
  }

  lemma NonEmptyToo<T(!new)>(cmp: Compare<T>, s: seq<T>, t: seq<T>)
    requires Comparator(cmp) && SameTies(cmp, s, t) && s != []
    ensures t != []
  {
    TiesHas(cmp, s, s[0]);
    TiesHas(cmp, t, s[0]);
    assert s[0] in Ties(cmp, s, s[0]);
  }

  lemma HeadsTie<T(!new)>(cmp: Compare<T>, s: seq<T>, t: seq<T>)
    requires Comparator(cmp) && Sorted(cmp, s) && Sorted(cmp, t) && s != [] && t != []
    requires SameTies(cmp, s, t)
    ensures cmp(s[0], t[0]) <= 0
  {
    TiesHas(cmp, s, t[0]);
    TiesHas(cmp, t, t[0]);
    assert t[0] in Ties(cmp, t, t[0]);
    var i :| 0 <= i < |s| && s[i] == t[0];
    FirstIsLeast(cmp, s, i);
  }

  /** Two lists sort alike exactly when they order every class of equal elements alike. */
  lemma SortsAlikeExactly<T(!new)>(cmp: Compare<T>, s: seq<T>, t: seq<T>)
    requires Comparator(cmp)
    ensures Sort(cmp, s) == Sort(cmp, t) <==> SameTies(cmp, s, t)
  {
    SortIsStable(cmp, s);
    SortIsStable(cmp, t);
    if SameTies(cmp, s, t) {
      forall x ensures Ties(cmp, Sort(cmp, s), x) == Ties(cmp, Sort(cmp, t), x) {
        assert Ties(cmp, s, x) == Ties(cmp, t, x);
      }
      SortedIsUnique(cmp, Sort(cmp, s), Sort(cmp, t));
    }
    if Sort(cmp, s) == Sort(cmp, t) {
      forall x ensures Ties(cmp, s, x) == Ties(cmp, t, x) {
        assert Ties(cmp, Sort(cmp, s), x) == Ties(cmp, s, x);
        assert Ties(cmp, Sort(cmp, t), x) == Ties(cmp, t, x);
      }
    }
  }

  lemma SortTwo<T>(cmp: Compare<T>, x: T, y: T)
    ensures Sort(cmp, [x, y]) == if cmp(x, y) <= 0 then [x, y] else [y, x]
  {
    assert [x, y][1..] == [y] && [y][1..] == [];
    assert Insert(cmp, y, []) == [y];
    assert Sort(cmp, [y]) == [y];
    assert Sort(cmp, [x, y]) == Insert(cmp, x, [y]);
    assert Insert(cmp, x, []) == [x];
  }

  lemma {:induction false} SortHas<T(!new)>(cmp: Compare<T>, s: seq<T>)
    ensures multiset(Sort(cmp, s)) == multiset(s)
  {
    if s != [] {
      SortHas(cmp, s[1..]);
      InsertHas(cmp, s[0], Sort(cmp, s[1..]));
      assert s == [s[0]] + s[1..];
    }
  }

  lemma {:induction false} InsertHas<T(!new)>(cmp: Compare<T>, x: T, s: seq<T>)
    ensures multiset(Insert(cmp, x, s)) == multiset{x} + multiset(s)
  {
    if s != [] && cmp(x, s[0]) > 0 {
      InsertHas(cmp, x, s[1..]);
      assert s == [s[0]] + s[1..];
    }
  }

  lemma SortMembers<T(!new)>(cmp: Compare<T>, s: seq<T>)
    ensures |Sort(cmp, s)| == |s| && forall x :: x in Sort(cmp, s) <==> x in s
  {
    var sorted := Sort(cmp, s);
    SortHas(cmp, s);
    assert |sorted| == |multiset(sorted)| == |multiset(s)| == |s|;
    forall x ensures x in sorted <==> x in s { assert x in multiset(sorted) <==> x in multiset(s); }
  }

  predicate NoRepeats<T(==)>(s: seq<T>) {
    forall i, j :: 0 <= i < j < |s| ==> s[i] != s[j]
  }

  lemma {:induction false} RepeatsCount<T>(s: seq<T>)
    ensures NoRepeats(s) <==> forall x :: multiset(s)[x] <= 1
  {
    if s != [] {
      var rest := s[1..];
      RepeatsCount(rest);
      assert s == [s[0]] + rest;
      assert NoRepeats(s) <==> NoRepeats(rest) && s[0] !in rest;
      if forall x :: multiset(s)[x] <= 1 {
        assert multiset(s)[s[0]] == 1 + multiset(rest)[s[0]];
        forall x ensures multiset(rest)[x] <= 1 { assert multiset(s)[x] <= 1; }
      }
    }
  }

  /** Rearranging a list without repeats makes none. */
  lemma RepeatsRearranged<T>(s: seq<T>, t: seq<T>)
    requires NoRepeats(s) && multiset(s) == multiset(t)
    ensures NoRepeats(t)
    ensures forall x :: x in s <==> x in t
  {
    RepeatsCount(s);
    RepeatsCount(t);
    forall x ensures x in s <==> x in t { assert x in multiset(s) <==> x in multiset(t); }
  }

  /** No two different elements tie. */
  predicate Separates<T(==)>(cmp: Compare<T>, s: seq<T>) {
    forall x, y :: x in s && y in s && cmp(x, y) == 0 ==> x == y
  }

  /** Without ties between different elements, every rearrangement sorts alike. */
  lemma RearrangedSortsAlike<T(!new)>(cmp: Compare<T>, s: seq<T>, t: seq<T>)
    requires Comparator(cmp) && Separates(cmp, s) && multiset(s) == multiset(t)
    ensures Sort(cmp, s) == Sort(cmp, t)
  {
    forall x ensures Ties(cmp, s, x) == Ties(cmp, t, x) {
      TiesCount(cmp, s, x);
      TiesCount(cmp, t, x);
      forall y, z | y in s && cmp(y, x) == 0 && z in s && cmp(z, x) == 0 ensures y == z {
        assert cmp(x, z) <= 0 && cmp(x, y) <= 0;
        assert cmp(y, z) <= 0 && cmp(z, y) <= 0;
      }
      forall y ensures y in s <==> y in t { assert y in multiset(s) <==> y in multiset(t); }
      SameElement(cmp, s, t, x);
    }
    SortsAlikeExactly(cmp, s, t);
  }

  lemma {:induction false} TiesCount<T(!new)>(cmp: Compare<T>, s: seq<T>, x: T)
    ensures forall y :: multiset(Ties(cmp, s, x))[y] == if cmp(y, x) == 0 then multiset(s)[y] else 0
  {
    if s != [] {
      TiesCount(cmp, s[1..], x);
      assert s == [s[0]] + s[1..];
    }
  }

  lemma SameElement<T(!new)>(cmp: Compare<T>, s: seq<T>, t: seq<T>, x: T)
    requires multiset(s) == multiset(t)
    requires forall y, z :: y in s && cmp(y, x) == 0 && z in s && cmp(z, x) == 0 ==> y == z
    ensures Ties(cmp, s, x) == Ties(cmp, t, x)
  {
    var a, b := Ties(cmp, s, x), Ties(cmp, t, x);
    TiesCount(cmp, s, x);
    TiesCount(cmp, t, x);
    TiesHas(cmp, s, x);
    TiesHas(cmp, t, x);
    assert multiset(a) == multiset(b);
    assert |a| == |multiset(a)| && |b| == |multiset(b)|;
    forall i | 0 <= i < |a| ensures a[i] == b[i] {
      assert a[i] in a && b[i] in b;
      assert b[i] in multiset(t);
      assert b[i] in multiset(s);
    }
  }

  /** The list with its k-th element moved to the front. */
  function Fronted<T>(s: seq<T>, k: nat): (t: seq<T>)
    requires k < |s|
    ensures multiset(t) == multiset(s) && t[0] == s[k]
  {
    assert s == s[..k] + [s[k]] + s[k + 1..];
    [s[k]] + (s[..k] + s[k + 1..])
  }

  /** Every rearrangement sorts alike if and only if no two different elements tie. */
  lemma SeparatesExactly<T(!new)>(cmp: Compare<T>, s: seq<T>)
    requires Comparator(cmp)
    ensures Separates(cmp, s) <==> forall t | multiset(t) == multiset(s) :: Sort(cmp, t) == Sort(cmp, s)
  {
    if Separates(cmp, s) {
      forall t | multiset(t) == multiset(s) ensures Sort(cmp, t) == Sort(cmp, s) { RearrangedSortsAlike(cmp, s, t); }
    } else {
      var x, y :| x in s && y in s && cmp(x, y) == 0 && x != y;
      var k :| 0 <= k < |s| && s[k] == x;
      var l :| 0 <= l < |s| && s[l] == y;
      var t, u := Fronted(s, k), Fronted(s, l);
      assert cmp(x, x) == 0 && cmp(y, x) == 0;
      assert Ties(cmp, t, x)[0] == x && Ties(cmp, u, x)[0] == y;
      SortsAlikeExactly(cmp, t, u);
    }
  }
}
