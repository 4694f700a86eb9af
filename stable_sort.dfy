/**
 * `Array.prototype.sort` with a numeric comparator `(a, b) => key(a) - key(b)`:
 * a stable, in-place sort by ascending key.  The functional definition `Sort`
 * is insertion from the back; `InsertionSort` runs it in place on an array.
 * Because a stable sort is unique (`StableSortIsUnique`), the particular
 * algorithm a JavaScript engine uses gives the same result.
 */
module StableSort {

  predicate SortedBy<T>(s: seq<T>, key: T -> int)
  {
    forall i, j :: 0 <= i < j < |s| ==> key(s[i]) <= key(s[j])
  }

  /** The elements of `s` whose key is `k`, in their order in `s`. */
  function Filter<T>(s: seq<T>, key: T -> int, k: int): seq<T>
  {
    if s == [] then []
    else Filter(s[..|s| - 1], key, k) + (if key(s[|s| - 1]) == k then [s[|s| - 1]] else [])
  }

  /** Place `x` after the last element whose key does not exceed `key(x)`. */
  function Insert<T>(s: seq<T>, x: T, key: T -> int): seq<T>
  {
    if s == [] || key(s[|s| - 1]) <= key(x) then s + [x]
    else Insert(s[..|s| - 1], x, key) + [s[|s| - 1]]
  }

  function Sort<T>(s: seq<T>, key: T -> int): seq<T>
  {
    if s == [] then [] else Insert(Sort(s[..|s| - 1], key), s[|s| - 1], key)
  }

  /** Applies `f` to every element. */
  function MapSeq<T, U>(f: T -> U, s: seq<T>): (r: seq<U>)
    ensures |r| == |s| && forall i {:trigger r[i]} :: 0 <= i < |s| ==> r[i] == f(s[i])
  {
    seq(|s|, i requires 0 <= i < |s| => f(s[i]))
  }

  lemma ConcatAssoc<T>(a: seq<T>, b: seq<T>, c: seq<T>)
    ensures (a + b) + c == a + (b + c)
  {
  }

  /** A non-empty sequence is its front followed by its last element. */
  lemma SplitLast<T>(s: seq<T>)
    requires s != []
    ensures s == s[..|s| - 1] + [s[|s| - 1]]
  {
  }

  /** A prefix grows by the next element. */
  lemma PrefixStep<T>(s: seq<T>, n: nat)
    requires n < |s|
    ensures s[..n + 1] == s[..n] + [s[n]]
  {
  }

  /** Mapping distributes over appending one element. */
  lemma MapAppend<T, U>(f: T -> U, s: seq<T>, x: T)
    ensures MapSeq(f, s + [x]) == MapSeq(f, s) + [f(x)]
  {
  }

  lemma {:induction false} FilterAppend<T>(a: seq<T>, b: seq<T>, key: T -> int, k: int)
    ensures Filter(a + b, key, k) == Filter(a, key, k) + Filter(b, key, k)
  {
    if b == [] {
      assert a + b == a;
    } else {
      assert (a + b)[..|a + b| - 1] == a + b[..|b| - 1];
      FilterAppend(a, b[..|b| - 1], key, k);
    }
  }

  /** One element of `[x]`'s key class, or none. */
  function Singleton<T>(x: T, key: T -> int, k: int): seq<T>
  {
    if key(x) == k then [x] else []
  }

  lemma FilterSingleton<T>(x: T, key: T -> int, k: int)
    ensures Filter([x], key, k) == Singleton(x, key, k)
  {
    assert [x][..0] == [];
  }

  lemma {:induction false} InsertFilter<T>(s: seq<T>, x: T, key: T -> int, k: int)
    ensures Filter(Insert(s, x, key), key, k) == Filter(s, key, k) + Singleton(x, key, k)
  {
    FilterSingleton(x, key, k);
    if s == [] || key(s[|s| - 1]) <= key(x) {
      FilterAppend(s, [x], key, k);
    } else {
      var s', l := s[..|s| - 1], s[|s| - 1];
      assert s == s' + [l];
      InsertFilter(s', x, key, k);
      var t := Insert(s', x, key);
      FilterAppend(t, [l], key, k);
      FilterAppend(s', [l], key, k);
      FilterSingleton(l, key, k);
      assert Singleton(x, key, k) == [] || Singleton(l, key, k) == [];
    }
  }

  lemma {:induction false} InsertMultiset<T>(s: seq<T>, x: T, key: T -> int)
    ensures |Insert(s, x, key)| == |s| + 1
    ensures multiset(Insert(s, x, key)) == multiset(s) + multiset{x}
  {
    if s == [] || key(s[|s| - 1]) <= key(x) {
    } else {
      var s', l := s[..|s| - 1], s[|s| - 1];
      assert s == s' + [l];
      InsertMultiset(s', x, key);
    }
  }

  lemma {:induction false} InsertSorted<T>(s: seq<T>, x: T, key: T -> int)
    requires SortedBy(s, key)
    ensures SortedBy(Insert(s, x, key), key)
    ensures forall y :: y in Insert(s, x, key) ==> y == x || y in s
  {
    if s == [] || key(s[|s| - 1]) <= key(x) {
    } else {
      var s', l := s[..|s| - 1], s[|s| - 1];
      InsertSorted(s', x, key);
      var t := Insert(s', x, key);
      forall y | y in t ensures key(y) <= key(l) {
        if y != x {
          var j :| 0 <= j < |s'| && s'[j] == y;
          assert s[j] == y;
        }
      }
    }
  }

  /** The result is ordered by ascending key. */
  lemma {:induction false} SortIsSorted<T>(s: seq<T>, key: T -> int)
    ensures SortedBy(Sort(s, key), key)
  {
    if s != [] {
      SortIsSorted(s[..|s| - 1], key);
      InsertSorted(Sort(s[..|s| - 1], key), s[|s| - 1], key);
    }
  }

  /** The result is a permutation of the input. */
  lemma {:induction false} SortIsPermutation<T>(s: seq<T>, key: T -> int)
    ensures |Sort(s, key)| == |s|
    ensures multiset(Sort(s, key)) == multiset(s)
  {
    if s != [] {
      SortIsPermutation(s[..|s| - 1], key);
      InsertMultiset(Sort(s[..|s| - 1], key), s[|s| - 1], key);
      SplitLast(s);
    }
  }

  /** Stability: elements with equal keys keep their relative order. */
  lemma {:induction false} SortIsStable<T>(s: seq<T>, key: T -> int, k: int)
    ensures Filter(Sort(s, key), key, k) == Filter(s, key, k)
  {
    if s != [] {
      var s', l := s[..|s| - 1], s[|s| - 1];
      SortIsStable(s', key, k);
      InsertFilter(Sort(s', key), l, key, k);
      FilterSingleton(l, key, k);
      SplitLast(s);
      FilterAppend(s', [l], key, k);
    }
  }

  lemma {:induction false} FilterMembers<T>(s: seq<T>, key: T -> int, k: int)
    ensures forall y :: y in Filter(s, key, k) <==> y in s && key(y) == k
  {
    if s != [] {
      FilterMembers(s[..|s| - 1], key, k);
      assert s == s[..|s| - 1] + [s[|s| - 1]];
    }
  }

  /**
   * Any sequence that is sorted by `key` and keeps every key class in input
   * order is `Sort(s)`: the outcome of a stable sort does not depend on the
   * algorithm.
   */
  lemma {:induction false} StableSortIsUnique<T>(s: seq<T>, t: seq<T>, key: T -> int)
    requires SortedBy(t, key)
    requires forall k :: Filter(t, key, k) == Filter(s, key, k)
    ensures t == Sort(s, key)
  {
    SortIsSorted(s, key);
    forall k ensures Filter(t, key, k) == Filter(Sort(s, key), key, k) {
      SortIsStable(s, key, k);
    }
    SortedWithSameClassesAreEqual(t, Sort(s, key), key);
  }

  lemma {:induction false} SortedWithSameClassesAreEqual<T>(t: seq<T>, u: seq<T>, key: T -> int)
    requires SortedBy(t, key) && SortedBy(u, key)
    requires forall k :: Filter(t, key, k) == Filter(u, key, k)
    ensures t == u
    decreases |t|
  {
    if t == [] || u == [] {
      if t != [] {
        ClassOfLastIsPresent(t, u, key);
      } else if u != [] {
        ClassOfLastIsPresent(u, t, key);
      }
    } else {
      ClassOfLastIsPresent(t, u, key);
      ClassOfLastIsPresent(u, t, key);
      var t', u' := t[..|t| - 1], u[..|u| - 1];
      var lt, lu := t[|t| - 1], u[|u| - 1];
      var k0 := key(lt);
      var ft := Filter(t, key, k0);
      assert ft == Filter(t', key, k0) + [lt];
      assert ft == Filter(u, key, k0) == Filter(u', key, k0) + [lu];
      assert lt == ft[|ft| - 1] == lu;
      forall k ensures Filter(t', key, k) == Filter(u', key, k) {
        DropLastClass(t, key, k);
        DropLastClass(u, key, k);
        assert Filter(t, key, k) == Filter(u, key, k);
        CancelRight(Filter(t', key, k), Filter(u', key, k), Singleton(lt, key, k));
      }
      SortedWithSameClassesAreEqual(t', u', key);
      assert t == t' + [lt] && u == u' + [lu];
    }
  }

  /** The key class of the last element of a sorted `t` also holds the last element of `u`. */
  lemma ClassOfLastIsPresent<T>(t: seq<T>, u: seq<T>, key: T -> int)
    requires t != [] && SortedBy(u, key)
    requires forall k :: Filter(t, key, k) == Filter(u, key, k)
    ensures u != [] && key(t[|t| - 1]) <= key(u[|u| - 1])
  {
    var kt := key(t[|t| - 1]);
    FilterMembers(t, key, kt);
    FilterMembers(u, key, kt);
    assert t[|t| - 1] in Filter(t, key, kt);
    assert t[|t| - 1] in Filter(u, key, kt);
    var i :| 0 <= i < |u| && u[i] == t[|t| - 1];
  }

  lemma CancelRight<T>(a: seq<T>, b: seq<T>, c: seq<T>)
    requires a + c == b + c
    ensures a == b
  {
    assert a == (a + c)[..|a|] && b == (b + c)[..|b|];
  }

  lemma DropLastClass<T>(t: seq<T>, key: T -> int, k: int)
    requires t != []
    ensures Filter(t, key, k) == Filter(t[..|t| - 1], key, k) + Singleton(t[|t| - 1], key, k)
  {
  }

  /** Selecting one key class commutes with a map that keeps the key. */
  lemma {:induction false} FilterMapCommutes<T, U>(s: seq<T>, key: T -> int, f: T -> U, key': U -> int, k: int)
    requires forall x :: key'(f(x)) == key(x)
    ensures Filter(MapSeq(f, s), key', k) == MapSeq(f, Filter(s, key, k))
  {
    if s != [] {
      var s', l := s[..|s| - 1], s[|s| - 1];
      assert MapSeq(f, s)[..|s| - 1] == MapSeq(f, s');
      FilterMapCommutes(s', key, f, key', k);
      assert MapSeq(f, Filter(s', key, k) + [l]) == MapSeq(f, Filter(s', key, k)) + [f(l)];
    }
  }

  /** Sorting commutes with a map that keeps the key. */
  lemma {:induction false} SortMapCommutes<T, U>(s: seq<T>, key: T -> int, f: T -> U, key': U -> int)
    requires forall x :: key'(f(x)) == key(x)
    ensures Sort(MapSeq(f, s), key') == MapSeq(f, Sort(s, key))
  {
    if s != [] {
      var s', l := s[..|s| - 1], s[|s| - 1];
      assert MapSeq(f, s)[..|s| - 1] == MapSeq(f, s');
      SortMapCommutes(s', key, f, key');
      InsertMapCommutes(Sort(s', key), l, key, f, key');
    }
  }

  lemma {:induction false} InsertMapCommutes<T, U>(s: seq<T>, x: T, key: T -> int, f: T -> U, key': U -> int)
    requires forall x :: key'(f(x)) == key(x)
    ensures Insert(MapSeq(f, s), f(x), key') == MapSeq(f, Insert(s, x, key))
  {
    if s == [] || key(s[|s| - 1]) <= key(x) {
      assert MapSeq(f, s + [x]) == MapSeq(f, s) + [f(x)];
    } else {
      var s', l := s[..|s| - 1], s[|s| - 1];
      assert MapSeq(f, s)[..|s| - 1] == MapSeq(f, s');
      InsertMapCommutes(s', x, key, f, key');
      assert MapSeq(f, Insert(s', x, key) + [l]) == MapSeq(f, Insert(s', x, key)) + [f(l)];
    }
  }

  /**
   * If every element of `s` from position `j` on has a key above `key(x)`,
   * and the element before `j` (if any) does not, `x` lands at position `j`.
   */
  lemma {:induction false} InsertAt<T>(s: seq<T>, x: T, key: T -> int, j: nat)
    requires j <= |s|
    requires j == 0 || key(s[j - 1]) <= key(x)
    requires forall m :: j <= m < |s| ==> key(s[m]) > key(x)
    ensures Insert(s, x, key) == s[..j] + [x] + s[j..]
    decreases |s|
  {
    if j == |s| {
      assert s[..j] == s && s[j..] == [];
    } else {
      var s' := s[..|s| - 1];
      InsertAt(s', x, key, j);
      assert s'[..j] == s[..j];
      assert s[j..] == s'[j..] + [s[|s| - 1]];
    }
  }

  /** Moves `a[i]` down into the sorted prefix `a[..i]`, past every element with a larger key. */
  method InsertInPlace<T>(a: array<T>, i: nat, key: T -> int)
    requires i < a.Length
    modifies a
    ensures a[..i + 1] == Insert(old(a[..i]), old(a[i]), key)
    ensures forall m :: i < m < a.Length ==> a[m] == old(a[m])
  {
    ghost var sorted := a[..i];
    var x := a[i];
    var j := i;
    while j > 0 && key(a[j - 1]) > key(x)
      invariant 0 <= j <= i
      invariant forall m :: 0 <= m < j ==> a[m] == sorted[m]
      invariant forall m :: j < m <= i ==> a[m] == sorted[m - 1]
      invariant forall m :: j <= m < i ==> key(sorted[m]) > key(x)
      invariant forall m :: i < m < a.Length ==> a[m] == old(a[m])
    {
      a[j] := a[j - 1];
      j := j - 1;
    }
    a[j] := x;
    InsertAt(sorted, x, key, j);
    assert a[..i + 1] == sorted[..j] + [x] + sorted[j..];
  }

  /** Stable insertion sort in place: the same result as `Sort`. */
  method InsertionSort<T>(a: array<T>, key: T -> int)
    modifies a
    ensures a[..] == Sort(old(a[..]), key)
  {
    ghost var input := a[..];
    var i := 0;
    while i < a.Length
      invariant 0 <= i <= a.Length
      invariant a[..i] == Sort(input[..i], key)
      invariant forall m :: i <= m < a.Length ==> a[m] == input[m]
    {
      InsertInPlace(a, i, key);
      assert input[..i + 1][..i] == input[..i];
      i := i + 1;
    }
    assert a[..] == a[..a.Length] && input == input[..a.Length];
  }
}
