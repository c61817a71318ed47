/** Generic sequence helpers: `slice(0, n)`, order-preserving
    subsequences and the stable sort behind `Array.prototype.sort`. */
module Seqs {
  import opened Types

  /** `s.slice(0, n)` for a non-negative `n`. */
  function Take<T>(s: seq<T>, n: nat): (r: seq<T>)
    ensures |r| == if n < |s| then n else |s|
    ensures r == s[..|r|]
  {
    if n < |s| then s[..n] else s
  }

  /** `r` is `s` with some elements removed, the rest kept in order. */
  predicate IsSubsequence<T(==)>(r: seq<T>, s: seq<T>)
    decreases |s|
  {
    if r == [] then true
    else if s == [] then false
    else (r[|r| - 1] == s[|s| - 1] && IsSubsequence(r[..|r| - 1], s[..|s| - 1]))
         || IsSubsequence(r, s[..|s| - 1])
  }

  lemma {:induction false} SubsequenceExtend<T>(r: seq<T>, s: seq<T>, x: T)
    requires IsSubsequence(r, s)
    ensures IsSubsequence(r, s + [x])
    ensures IsSubsequence(r + [x], s + [x])
  {
    assert (s + [x])[..|s|] == s;
    assert (r + [x])[..|r|] == r;
  }

  lemma {:induction false} SubsequenceRefl<T>(s: seq<T>)
    ensures IsSubsequence(s, s)
    decreases |s|
  {
    if s != [] {
      SubsequenceRefl(s[..|s| - 1]);
    }
  }

  lemma {:induction false} SubsequenceMembers<T>(r: seq<T>, s: seq<T>)
    requires IsSubsequence(r, s)
    ensures forall x :: x in r ==> x in s
    decreases |s|
  {
    if r != [] {
      var r', s' := r[..|r| - 1], s[..|s| - 1];
      if r[|r| - 1] == s[|s| - 1] && IsSubsequence(r', s') {
        SubsequenceMembers(r', s');
        assert r == r' + [s[|s| - 1]];
        assert s == s' + [s[|s| - 1]];
      } else {
        SubsequenceMembers(r, s');
        assert s == s' + [s[|s| - 1]];
      }
    }
  }

  /** Every prefix of a subsequence is a subsequence. */
  lemma {:induction false} SubsequencePrefix<T>(r: seq<T>, s: seq<T>, n: nat)
    requires IsSubsequence(r, s) && n <= |r|
    ensures IsSubsequence(r[..n], s)
    decreases |s|
  {
    if n == |r| {
      assert r[..n] == r;
    } else if n == 0 {
      assert r[..n] == [];
    } else {
      var s' := s[..|s| - 1];
      if r[|r| - 1] == s[|s| - 1] && IsSubsequence(r[..|r| - 1], s') {
        assert r[..|r| - 1][..n] == r[..n];
        SubsequencePrefix(r[..|r| - 1], s', n);
      } else {
        SubsequencePrefix(r, s', n);
      }
    }
  }

  lemma SubsequenceTake<T>(r: seq<T>, s: seq<T>, n: nat)
    requires IsSubsequence(r, s)
    ensures IsSubsequence(Take(r, n), s)
  {
    SubsequencePrefix(r, s, |Take(r, n)|);
  }

  /** `[...new Set(s)]`: the first occurrence of each element, in order. */
  function Distinct<T(==,!new)>(s: seq<T>): (r: seq<T>)
    ensures forall i, j :: 0 <= i < j < |r| ==> r[i] != r[j]
    ensures IsSubsequence(r, s)
    decreases |s|
  {
    if s == [] then []
    else
      var init := Distinct(s[..|s| - 1]);
      var x := s[|s| - 1];
      assert s == s[..|s| - 1] + [x];
      SubsequenceExtend(init, s[..|s| - 1], x);
      if x in init then init else init + [x]
  }

  /** `Distinct` drops repetitions only: it keeps every element. */
  lemma {:induction false} DistinctMembers<T(!new)>(s: seq<T>)
    ensures forall x :: x in Distinct(s) <==> x in s
    decreases |s|
  {
    if s != [] {
      DistinctMembers(s[..|s| - 1]);
      assert s == s[..|s| - 1] + [s[|s| - 1]];
    }
  }

  /** A sequence without repetitions is its own `Distinct`. */
  lemma {:induction false} DistinctOfDistinct<T(!new)>(s: seq<T>)
    requires forall i, j :: 0 <= i < j < |s| ==> s[i] != s[j]
    ensures Distinct(s) == s
    decreases |s|
  {
    if s != [] {
      DistinctOfDistinct(s[..|s| - 1]);
      assert s == s[..|s| - 1] + [s[|s| - 1]];
    }
  }

  // ------------------------------------------------------------ sorting

  /** `less` is irreflexive, transitive, and "neither is less" is
      transitive: what a sort comparator must be. */
  ghost predicate StrictWeakOrder<T(!new)>(less: (T, T) -> bool) {
    && (forall a :: !less(a, a))
    && (forall a, b, c :: less(a, b) && less(b, c) ==> less(a, c))
    && (forall a, b, c :: !less(a, b) && !less(b, c) ==> !less(a, c))
  }

  ghost predicate SortedBy<T>(less: (T, T) -> bool, s: seq<T>) {
    forall i, j :: 0 <= i < j < |s| ==> !less(s[j], s[i])
  }

  /** Insert `x` in front of the first element that is not less than it,
      so that it stays ahead of the equal elements that follow it. */
  function Insert<T>(x: T, s: seq<T>, less: (T, T) -> bool): (r: seq<T>)
    ensures multiset(r) == multiset(s) + multiset{x}
    decreases |s|
  {
    if s == [] then [x]
    else if less(s[0], x) then
      assert s == [s[0]] + s[1..];
      [s[0]] + Insert(x, s[1..], less)
    else [x] + s
  }

  /** The stable insertion sort by `less`: a sorted permutation. */
  function InsertionSort<T(!new)>(s: seq<T>, less: (T, T) -> bool): (r: seq<T>)
    requires StrictWeakOrder(less)
    ensures multiset(r) == multiset(s)
    ensures SortedBy(less, r)
    decreases |s|
  {
    if s == [] then []
    else
      var rest := InsertionSort(s[1..], less);
      InsertSorted(s[0], rest, less);
      assert s == [s[0]] + s[1..];
      Insert(s[0], rest, less)
  }

  lemma {:induction false} InsertSorted<T(!new)>(x: T, s: seq<T>, less: (T, T) -> bool)
    requires StrictWeakOrder(less) && SortedBy(less, s)
    ensures SortedBy(less, Insert(x, s, less))
    decreases |s|
  {
    if s != [] && less(s[0], x) {
      assert s == [s[0]] + s[1..];
      InsertSorted(x, s[1..], less);
      InsertNotBelow(x, s[1..], less, s[0]);
      SortedCons(s[0], Insert(x, s[1..], less), less);
    } else if s != [] {
      forall j | 0 <= j < |s| ensures !less(s[j], x) {
        assert j == 0 || !less(s[j], s[0]);
      }
      SortedCons(x, s, less);
    }
  }

  lemma SortedCons<T>(h: T, t: seq<T>, less: (T, T) -> bool)
    requires SortedBy(less, t) && forall j :: 0 <= j < |t| ==> !less(t[j], h)
    ensures SortedBy(less, [h] + t)
  {
    var r := [h] + t;
    forall i, j | 0 <= i < j < |r| ensures !less(r[j], r[i]) {
      assert r[j] == t[j - 1];
      if i > 0 {
        assert r[i] == t[i - 1];
      }
    }
  }

  /** Inserting an element that is not below `h` into elements that are not
      below `h` gives elements that are not below `h`. */
  lemma InsertNotBelow<T(!new)>(x: T, s: seq<T>, less: (T, T) -> bool, h: T)
    requires StrictWeakOrder(less) && SortedBy(less, [h] + s) && less(h, x)
    ensures forall j :: 0 <= j < |Insert(x, s, less)| ==> !less(Insert(x, s, less)[j], h)
  {
    var r := Insert(x, s, less);
    assert less(h, x) && less(x, h) ==> less(h, h);
    forall j | 0 <= j < |r| ensures !less(r[j], h) {
      assert r[j] in multiset(s) + multiset{x};
      if r[j] != x {
        var k :| 0 <= k < |s| && s[k] == r[j];
        assert ([h] + s)[k + 1] == s[k] && ([h] + s)[0] == h;
      } else {
        assert !less(x, h);
      }
    }
  }

  /** Sorting an already sorted sequence changes nothing. */
  lemma {:induction false} InsertionSortOfSorted<T(!new)>(s: seq<T>, less: (T, T) -> bool)
    requires StrictWeakOrder(less) && SortedBy(less, s)
    ensures InsertionSort(s, less) == s
    decreases |s|
  {
    if s != [] {
      InsertionSortOfSorted(s[1..], less);
      if |s| > 1 {
        assert !less(s[1..][0], s[0]);
      }
    }
  }

  /** What is left of a sorted sequence after removing elements is still
      sorted. */
  lemma {:induction false} SubsequenceSorted<T>(r: seq<T>, s: seq<T>, less: (T, T) -> bool)
    requires IsSubsequence(r, s) && SortedBy(less, s)
    ensures SortedBy(less, r)
    decreases |s|
  {
    if r != [] {
      var r', s' := r[..|r| - 1], s[..|s| - 1];
      assert SortedBy(less, s');
      if r[|r| - 1] == s[|s| - 1] && IsSubsequence(r', s') {
        SubsequenceSorted(r', s', less);
        SubsequenceMembers(r', s');
        forall i, j | 0 <= i < j < |r| ensures !less(r[j], r[i]) {
          if j == |r| - 1 {
            assert r[i] == r'[i];
            assert r[i] in s';
            var k :| 0 <= k < |s'| && s'[k] == r[i];
            assert s[k] == r[i];
          } else {
            assert r[i] == r'[i] && r[j] == r'[j];
          }
        }
      } else {
        SubsequenceSorted(r, s', less);
      }
    }
  }

  /** An element of a sorted sequence left out of its first `n` ranks
      before none of them, and there are `n` of them. */
  lemma TakeOfSorted<T>(s: seq<T>, x: T, n: nat, less: (T, T) -> bool)
    requires SortedBy(less, s) && x in s && x !in Take(s, n)
    ensures |Take(s, n)| == n
    ensures forall k :: 0 <= k < n ==> !less(x, s[k])
  {
    var j :| 0 <= j < |s| && s[j] == x;
    assert j >= n;
  }

  // ------------------------------------------------------ map and filter

  /** `s.map(g)`. */
  function MapSeq<T, U>(s: seq<T>, g: T -> U): (r: seq<U>)
    ensures |r| == |s|
    ensures forall i :: 0 <= i < |s| ==> r[i] == g(s[i])
  {
    seq(|s|, i requires 0 <= i < |s| => g(s[i]))
  }

  /** Cutting a list short keeps the images of its elements in order. */
  lemma TakeMapSubsequence<T, U>(r: seq<T>, g: T -> U, s: seq<U>, n: nat)
    requires IsSubsequence(MapSeq(r, g), s)
    ensures IsSubsequence(MapSeq(Take(r, n), g), s)
  {
    assert MapSeq(Take(r, n), g) == MapSeq(r, g)[..|Take(r, n)|];
    SubsequencePrefix(MapSeq(r, g), s, |Take(r, n)|);
  }

  /** `s.map(f).filter(Boolean)`, for an `f` that yields a value or nothing. */
  function FilterMap<T, U>(s: seq<T>, f: T -> Option<U>): (r: seq<U>)
    ensures |r| <= |s|
    decreases |s|
  {
    if s == [] then []
    else FilterMap(s[..|s| - 1], f) + (match f(s[|s| - 1]) case Some(y) => [y] case None => [])
  }

  /** Every value kept is the value of some element. */
  lemma {:induction false} FilterMapOrigin<T, U>(s: seq<T>, f: T -> Option<U>)
    ensures forall k :: 0 <= k < |FilterMap(s, f)| ==>
      exists i :: 0 <= i < |s| && f(s[i]) == Some(FilterMap(s, f)[k])
    decreases |s|
  {
    if s != [] {
      var init := s[..|s| - 1];
      FilterMapOrigin(init, f);
      var r, ri := FilterMap(s, f), FilterMap(init, f);
      forall k | 0 <= k < |r|
        ensures exists i :: 0 <= i < |s| && f(s[i]) == Some(r[k])
      {
        if k < |ri| {
          var i :| 0 <= i < |init| && f(init[i]) == Some(ri[k]);
          assert s[i] == init[i] && r[k] == ri[k];
        } else {
          assert r == ri + [f(s[|s| - 1]).value];
          assert f(s[|s| - 1]) == Some(r[k]);
        }
      }
      assert r == FilterMap(s, f);
      assert forall k :: 0 <= k < |r| ==> exists i :: 0 <= i < |s| && f(s[i]) == Some(r[k]);
    } else {
      assert FilterMap(s, f) == [];
    }
  }

  /** Every value of an element is kept. */
  lemma {:induction false} FilterMapComplete<T, U>(s: seq<T>, f: T -> Option<U>, i: int)
    requires 0 <= i < |s| && f(s[i]).Some?
    ensures f(s[i]).value in FilterMap(s, f)
    decreases |s|
  {
    if i < |s| - 1 {
      FilterMapComplete(s[..|s| - 1], f, i);
    }
  }

  /** When no element yields a value, nothing is kept. */
  lemma {:induction false} FilterMapNone<T, U>(s: seq<T>, f: T -> Option<U>)
    requires forall i :: 0 <= i < |s| ==> f(s[i]).None?
    ensures FilterMap(s, f) == []
    decreases |s|
  {
    if s != [] {
      FilterMapNone(s[..|s| - 1], f);
    }
  }

  /** Filtering a concatenation filters each part. */
  lemma {:induction false} FilterMapConcat<T, U>(a: seq<T>, b: seq<T>, f: T -> Option<U>)
    ensures FilterMap(a + b, f) == FilterMap(a, f) + FilterMap(b, f)
    decreases |b|
  {
    if b != [] {
      var init := b[..|b| - 1];
      assert (a + b)[..|a + b| - 1] == a + init;
      assert (a + b)[|a + b| - 1] == b[|b| - 1];
      FilterMapConcat(a, init, f);
    } else {
      assert a + b == a;
    }
  }

  /** An element that yields a value is kept at the position given by the
      number of values its predecessors yield. */
  lemma FilterMapAt<T, U>(s: seq<T>, f: T -> Option<U>, i: int)
    requires 0 <= i < |s| && f(s[i]).Some?
    ensures |FilterMap(s[..i], f)| < |FilterMap(s, f)|
    ensures FilterMap(s, f)[|FilterMap(s[..i], f)|] == f(s[i]).value
  {
    assert s == s[..i] + ([s[i]] + s[i + 1..]);
    FilterMapConcat(s[..i], [s[i]] + s[i + 1..], f);
    FilterMapConcat([s[i]], s[i + 1..], f);
    assert FilterMap([s[i]], f) == FilterMap([s[i]][..0], f) + [f(s[i]).value];
  }

  /** The positions of the elements `f` yields a value for. */
  function Yielding<T, U>(s: seq<T>, f: T -> Option<U>): set<int> {
    set i | 0 <= i < |s| && f(s[i]).Some?
  }

  /** One value is kept per element that yields one. */
  lemma {:induction false} FilterMapCount<T, U>(s: seq<T>, f: T -> Option<U>)
    ensures |FilterMap(s, f)| == |Yielding(s, f)|
    decreases |s|
  {
    if s == [] {
      assert Yielding(s, f) == {};
    } else {
      var init, last := s[..|s| - 1], |s| - 1;
      FilterMapCount(init, f);
      assert forall i :: 0 <= i < last ==> s[i] == init[i];
      assert last !in Yielding(init, f);
      if f(s[last]).Some? {
        assert Yielding(s, f) == Yielding(init, f) + {last};
      } else {
        assert Yielding(s, f) == Yielding(init, f);
      }
    }
  }

  /** `FilterMap` keeps exactly the values the elements yield, in order: one
      per yielding element, each at the position given by the number of
      yielding elements before it. */
  lemma FilterMapExactly<T, U>(s: seq<T>, f: T -> Option<U>)
    ensures |FilterMap(s, f)| == |Yielding(s, f)|
    ensures forall i :: 0 <= i < |s| && f(s[i]).Some? ==>
      |Yielding(s[..i], f)| < |FilterMap(s, f)| && FilterMap(s, f)[|Yielding(s[..i], f)|] == f(s[i]).value
  {
    FilterMapCount(s, f);
    forall i | 0 <= i < |s| && f(s[i]).Some?
      ensures |Yielding(s[..i], f)| < |FilterMap(s, f)| && FilterMap(s, f)[|Yielding(s[..i], f)|] == f(s[i]).value
    {
      FilterMapCount(s[..i], f);
      FilterMapAt(s, f, i);
    }
  }

  /** The kept values come in the order of the elements they came from:
      when `f` keeps what `keyOf` sees of an element, the keys of the result
      are a subsequence of the keys of the input. */
  lemma {:induction false} FilterMapOrder<T, U, K>(s: seq<T>, f: T -> Option<U>, keyOf: T -> K, keyOfValue: U -> K)
    requires forall i :: 0 <= i < |s| && f(s[i]).Some? ==> keyOfValue(f(s[i]).value) == keyOf(s[i])
    ensures IsSubsequence(MapSeq(FilterMap(s, f), keyOfValue), MapSeq(s, keyOf))
    decreases |s|
  {
    if s != [] {
      var init, x := s[..|s| - 1], s[|s| - 1];
      FilterMapOrder(init, f, keyOf, keyOfValue);
      var ri := MapSeq(FilterMap(init, f), keyOfValue);
      assert MapSeq(s, keyOf) == MapSeq(init, keyOf) + [keyOf(x)];
      SubsequenceExtend(ri, MapSeq(init, keyOf), keyOf(x));
      if f(x).Some? {
        assert MapSeq(FilterMap(s, f), keyOfValue) == ri + [keyOf(x)];
      } else {
        assert FilterMap(s, f) == FilterMap(init, f);
      }
    }
  }
}
