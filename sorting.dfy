/**
 * `Array.prototype.sort` with a numeric comparator `(a, b) => key(a) - key(b)`.
 * The language requires this sort to be stable, so its result is fully determined:
 * `Sort` below is a stable insertion sort, and `StableSortIsUnique` shows that every
 * stable sort (whatever algorithm an engine uses) returns exactly `Sort`'s result.
 */
module Sorting {
  import opened Seqs

  /** `s` is non-decreasing under `key`. */
  ghost predicate SortedBy<T>(s: seq<T>, key: T -> int)
  {
    forall i, j :: 0 <= i < j < |s| ==> key(s[i]) <= key(s[j])
  }

  /** The test "has key `k`", as a filter predicate. */
  function HasKey<T>(key: T -> int, k: int): T -> bool
  {
    x => key(x) == k
  }

  /** Inserts `x` after every element whose key is not larger than `x`'s. */
  function Insert<T>(s: seq<T>, x: T, key: T -> int): seq<T>
  {
    if s == [] || key(s[|s| - 1]) <= key(x) then s + [x]
    else Insert(s[..|s| - 1], x, key) + [s[|s| - 1]]
  }

  /** The stable sort of `s` by `key`. */
  function Sort<T>(s: seq<T>, key: T -> int): seq<T>
  {
    if s == [] then [] else Insert(Sort(s[..|s| - 1], key), s[|s| - 1], key)
  }

  /** Inserting adds exactly the one element. */
  lemma {:induction false} InsertPermutes<T>(s: seq<T>, x: T, key: T -> int)
    ensures multiset(Insert(s, x, key)) == multiset(s) + multiset{x}
  {
    if s != [] && key(s[|s| - 1]) > key(x) {
      InsertPermutes(s[..|s| - 1], x, key);
      assert s == s[..|s| - 1] + [s[|s| - 1]];
    }
  }

  /** The result of `Sort` is a permutation of its input. */
  lemma {:induction false} SortPermutes<T>(s: seq<T>, key: T -> int)
    ensures multiset(Sort(s, key)) == multiset(s)
  {
    if s != [] {
      SortPermutes(s[..|s| - 1], key);
      InsertPermutes(Sort(s[..|s| - 1], key), s[|s| - 1], key);
      assert s == s[..|s| - 1] + [s[|s| - 1]];
    }
  }

  lemma {:induction false} InsertSorted<T>(s: seq<T>, x: T, key: T -> int)
    requires SortedBy(s, key)
    ensures SortedBy(Insert(s, x, key), key)
  {
    if s != [] && key(s[|s| - 1]) > key(x) {
      var s', last := s[..|s| - 1], s[|s| - 1];
      var r' := Insert(s', x, key);
      assert SortedBy(r', key) by {
        InsertSorted(s', x, key);
      }
      assert forall y :: y in r' ==> key(y) <= key(last) by {
        InsertPermutes(s', x, key);
        forall y | y in r' ensures key(y) <= key(last) {
          assert y in multiset(r');
          assert y == x || y in multiset(s');
        }
      }
      SortedAppend(r', last, key);
    } else if s != [] {
      SortedAppend(s, x, key);
    }
  }

  /** A sorted sequence stays sorted when an element with the largest key is appended. */
  lemma {:induction false} SortedAppend<T>(s: seq<T>, x: T, key: T -> int)
    requires SortedBy(s, key) && forall y :: y in s ==> key(y) <= key(x)
    ensures SortedBy(s + [x], key)
  {
    forall i, j | 0 <= i < j < |s + [x]| ensures key((s + [x])[i]) <= key((s + [x])[j]) {
      assert (s + [x])[i] == s[i];
      if j < |s| {
        assert (s + [x])[j] == s[j];
      }
    }
  }

  /** The result of `Sort` is ordered by the key. */
  lemma {:induction false} SortIsSorted<T>(s: seq<T>, key: T -> int)
    ensures SortedBy(Sort(s, key), key)
  {
    if s != [] {
      SortIsSorted(s[..|s| - 1], key);
      InsertSorted(Sort(s[..|s| - 1], key), s[|s| - 1], key);
    }
  }

  lemma {:induction false} InsertStable<T>(s: seq<T>, x: T, key: T -> int, k: int)
    ensures Filter(Insert(s, x, key), HasKey(key, k)) == Filter(s, HasKey(key, k)) + Filter([x], HasKey(key, k))
  {
    var p := HasKey(key, k);
    if s == [] || key(s[|s| - 1]) <= key(x) {
      assert Insert(s, x, key) == s + [x];
      FilterConcat(s, [x], p);
    } else {
      var s', last := s[..|s| - 1], s[|s| - 1];
      var fs, fx, fl := Filter(s', p), Filter([x], p), Filter([last], p);
      assert Filter(Insert(s, x, key), p) == (fs + fx) + fl by {
        var r' := Insert(s', x, key);
        assert Insert(s, x, key) == r' + [last];
        InsertStable(s', x, key, k);
        FilterConcat(r', [last], p);
      }
      assert Filter(s, p) == fs + fl by {
        assert s == s' + [last];
        FilterConcat(s', [last], p);
      }
      // `last` and `x` have different keys, so at most one of them is kept.
      assert !p(last) || !p(x);
      FilterSingleton(last, p);
      FilterSingleton(x, p);
      if p(x) {
        assert fl == [];
        assert (fs + fx) + fl == fs + fx && (fs + fl) + fx == fs + fx;
      } else {
        assert fx == [];
        assert (fs + fx) + fl == fs + fl && (fs + fl) + fx == fs + fl;
      }
    }
  }

  /** Stability: the elements sharing any one key keep their relative order. */
  lemma {:induction false} SortIsStable<T>(s: seq<T>, key: T -> int, k: int)
    ensures Filter(Sort(s, key), HasKey(key, k)) == Filter(s, HasKey(key, k))
  {
    if s != [] {
      var s' := s[..|s| - 1];
      var last := s[|s| - 1];
      SortIsStable(s', key, k);
      InsertStable(Sort(s', key), last, key, k);
      FilterConcat(s', [last], HasKey(key, k));
      assert s == s' + [last];
    }
  }

  /** Two sequences with the same elements of key `k` contain the same such elements. */
  lemma {:induction false} SameClassMember<T>(a: seq<T>, b: seq<T>, key: T -> int, w: T)
    requires w in b
    requires Filter(a, HasKey(key, key(w))) == Filter(b, HasKey(key, key(w)))
    ensures w in a
  {
    FilterMembers(b, HasKey(key, key(w)), w);
    FilterMembers(a, HasKey(key, key(w)), w);
  }

  lemma {:induction false} SortedClassesDetermine<T>(a: seq<T>, b: seq<T>, key: T -> int)
    requires SortedBy(a, key) && SortedBy(b, key)
    requires forall k :: Filter(a, HasKey(key, k)) == Filter(b, HasKey(key, k))
    ensures a == b
    decreases |a| + |b|
  {
    if a == [] && b != [] {
      SameClassMember(a, b, key, b[0]);
    } else if a != [] && b == [] {
      SameClassMember(b, a, key, a[0]);
    } else if a != [] {
      var y, z := a[|a| - 1], b[|b| - 1];
      // Each last element carries the largest key on its side, so the keys coincide.
      SameClassMember(a, b, key, z);
      SameClassMember(b, a, key, y);
      assert key(y) == key(z);
      var big := HasKey(key, key(y));
      var a', b' := a[..|a| - 1], b[..|b| - 1];
      assert Filter(a, big) == Filter(a', big) + [y];
      assert Filter(b, big) == Filter(b', big) + [z];
      assert Filter(a, big) == Filter(b, big);
      assert y == Filter(a, big)[|Filter(a, big)| - 1] == z;
      forall k ensures Filter(a', HasKey(key, k)) == Filter(b', HasKey(key, k)) {
        FilterDropLast(a, b, HasKey(key, k));
      }
      SortedClassesDetermine(a', b', key);
    }
  }

  /**
   * Any ordering of `s` that is sorted by `key` and keeps the relative order of equal
   * keys is `Sort(s, key)`: every stable sort computes the same result.
   */
  lemma {:induction false} StableSortIsUnique<T>(s: seq<T>, r: seq<T>, key: T -> int)
    requires SortedBy(r, key)
    requires forall k :: Filter(r, HasKey(key, k)) == Filter(s, HasKey(key, k))
    ensures r == Sort(s, key)
  {
    SortIsSorted(s, key);
    forall k ensures Filter(r, HasKey(key, k)) == Filter(Sort(s, key), HasKey(key, k)) {
      SortIsStable(s, key, k);
    }
    SortedClassesDetermine(r, Sort(s, key), key);
  }

  /** Sorting an already sorted sequence changes nothing. */
  lemma {:induction false} SortOfSorted<T>(s: seq<T>, key: T -> int)
    requires SortedBy(s, key)
    ensures Sort(s, key) == s
  {
    if s != [] {
      SortOfSorted(s[..|s| - 1], key);
      assert s == s[..|s| - 1] + [s[|s| - 1]];
    }
  }

  /** Sorting twice is sorting once. */
  lemma {:induction false} SortIdempotent<T>(s: seq<T>, key: T -> int)
    ensures Sort(Sort(s, key), key) == Sort(s, key)
  {
    SortIsSorted(s, key);
    SortOfSorted(Sort(s, key), key);
  }

  /**
   * In a sorted rearrangement of `t`, the first element satisfying `p` has the least key of
   * all the elements of `t` that satisfy `p`.
   */
  lemma {:induction false} SortedFirstIsLeast<T>(s: seq<T>, t: seq<T>, key: T -> int, p: T -> bool, j: nat)
    requires multiset(s) == multiset(t) && SortedBy(s, key)
    requires j < |s| && forall k :: 0 <= k < j ==> !p(s[k])
    ensures forall m :: 0 <= m < |t| && p(t[m]) ==> key(s[j]) <= key(t[m])
  {
    forall m | 0 <= m < |t| && p(t[m]) ensures key(s[j]) <= key(t[m]) {
      assert t[m] in multiset(s);
      var n :| 0 <= n < |s| && s[n] == t[m];
      assert p(s[n]);
    }
  }

  lemma {:induction false} InsertAt<T>(p: seq<T>, x: T, j: nat, key: T -> int)
    requires j <= |p|
    requires j == 0 || key(p[j - 1]) <= key(x)
    requires forall k :: j <= k < |p| ==> key(p[k]) > key(x)
    ensures Insert(p, x, key) == p[..j] + [x] + p[j..]
    decreases |p| - j
  {
    if j < |p| {
      var p', last := p[..|p| - 1], p[|p| - 1];
      assert key(last) > key(x);
      assert Insert(p, x, key) == Insert(p', x, key) + [last];
      InsertAt(p', x, j, key);
      assert p[..j] == p'[..j];
      assert p[j..] == p'[j..] + [last];
    } else {
      assert p[..j] == p;
      assert p[j..] == [];
    }
  }

  /** One insertion step: moves `a[i]` left past the larger keys in the sorted prefix `a[..i]`. */
  method InsertLast<T>(a: array<T>, i: nat, key: T -> int)
    requires i < a.Length
    modifies a
    ensures a[..i + 1] == Insert(old(a[..i]), old(a[i]), key)
    ensures a[i + 1..] == old(a[i + 1..])
  {
    ghost var done := a[..i];
    var x := a[i];
    var j := i;
    while j > 0 && key(a[j - 1]) > key(x)
      invariant 0 <= j <= i
      invariant forall k :: 0 <= k < j ==> a[k] == done[k]
      invariant forall k :: j < k <= i ==> a[k] == done[k - 1]
      invariant forall k :: j <= k < i ==> key(done[k]) > key(x)
      invariant forall k :: i < k < a.Length ==> a[k] == old(a[k])
    {
      a[j] := a[j - 1];
      j := j - 1;
    }
    a[j] := x;
    InsertAt(done, x, j, key);
    assert a[..i + 1] == done[..j] + [x] + done[j..];
  }

  /** The in-place sort: `a` ends up holding the stable sort of its former contents. */
  method SortInPlace<T>(a: array<T>, key: T -> int)
    modifies a
    ensures a[..] == Sort(old(a[..]), key)
  {
    ghost var orig := a[..];
    for i := 0 to a.Length
      invariant a[..i] == Sort(orig[..i], key)
      invariant a[i..] == orig[i..]
    {
      InsertLast(a, i, key);
      assert orig[..i + 1] == orig[..i] + [orig[i]];
    }
    assert orig[..a.Length] == orig;
  }
}
