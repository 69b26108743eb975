/** Sequence helpers that stand for the JavaScript array built-ins the core calls. */
module Seqs {

  /** `s.filter(p)`: the elements of `s` satisfying `p`, in their original order. */
  function Filter<T>(s: seq<T>, p: T -> bool): (r: seq<T>)
    ensures |r| <= |s|
  {
    if s == [] then []
    else Filter(s[..|s| - 1], p) + (if p(s[|s| - 1]) then [s[|s| - 1]] else [])
  }

  /** Filtering distributes over concatenation: order is kept and nothing is dropped or added. */
  lemma {:induction false} FilterConcat<T>(a: seq<T>, b: seq<T>, p: T -> bool)
    ensures Filter(a + b, p) == Filter(a, p) + Filter(b, p)
  {
    if b == [] {
      assert a + b == a;
    } else {
      var b' := b[..|b| - 1];
      assert (a + b)[..|a + b| - 1] == a + b';
      FilterConcat(a, b', p);
    }
  }

  /** An element survives filtering exactly when it occurs in the input and satisfies `p`. */
  lemma {:induction false} FilterMembers<T>(s: seq<T>, p: T -> bool, x: T)
    ensures x in Filter(s, p) <==> x in s && p(x)
  {
    if s != [] {
      FilterMembers(s[..|s| - 1], p, x);
      assert s == s[..|s| - 1] + [s[|s| - 1]];
    }
  }

  /** Two inputs that end in the same element and filter alike still filter alike without it. */
  lemma {:induction false} FilterDropLast<T>(a: seq<T>, b: seq<T>, p: T -> bool)
    requires a != [] && b != [] && a[|a| - 1] == b[|b| - 1]
    requires Filter(a, p) == Filter(b, p)
    ensures Filter(a[..|a| - 1], p) == Filter(b[..|b| - 1], p)
  {
    var a', b', y := a[..|a| - 1], b[..|b| - 1], a[|a| - 1];
    var fa, fb, tail := Filter(a', p), Filter(b', p), if p(y) then [y] else [];
    assert Filter(a, p) == fa + tail && Filter(b, p) == fb + tail;
    assert fa == (fa + tail)[..|fa|] && fb == (fb + tail)[..|fb|];
  }

  /** Filtering a one-element sequence keeps the element exactly when it satisfies `p`. */
  lemma {:induction false} FilterSingleton<T>(x: T, p: T -> bool)
    ensures Filter([x], p) == if p(x) then [x] else []
  {
    assert [x][..0] == [];
  }

  /** Filtering depends only on the multiset of the input, as far as the multiset of the output goes. */
  lemma {:induction false} FilterMultiset<T>(s: seq<T>, p: T -> bool, x: T)
    ensures multiset(Filter(s, p))[x] == if p(x) then multiset(s)[x] else 0
  {
    if s != [] {
      var s' := s[..|s| - 1];
      assert s == s' + [s[|s| - 1]];
      FilterMultiset(s', p, x);
    }
  }

  /** `s.map(f)`: `f` applied to every element, in order. */
  function Map<T, U>(s: seq<T>, f: T -> U): (r: seq<U>)
    ensures |r| == |s| && forall i :: 0 <= i < |s| ==> r[i] == f(s[i])
  {
    seq(|s|, i requires 0 <= i < |s| => f(s[i]))
  }

  lemma {:induction false} MapConcat<T, U>(a: seq<T>, b: seq<T>, f: T -> U)
    ensures Map(a + b, f) == Map(a, f) + Map(b, f)
  {
    assert forall i :: 0 <= i < |a + b| ==> Map(a + b, f)[i] == (Map(a, f) + Map(b, f))[i];
  }

  /** Splitting a sequence around position `j`. */
  lemma {:induction false} RemoveAt<T>(a: seq<T>, j: nat)
    requires j < |a|
    ensures a == a[..j] + [a[j]] + a[j + 1..]
    ensures multiset(a) == multiset(a[..j] + a[j + 1..]) + multiset{a[j]}
  {
    assert a == a[..j] + [a[j]] + a[j + 1..];
    calc {
      multiset(a);
      multiset(a[..j] + [a[j]]) + multiset(a[j + 1..]);
      multiset(a[..j]) + multiset{a[j]} + multiset(a[j + 1..]);
    }
  }

  /** Mapping inputs that hold the same elements gives outputs that hold the same elements. */
  lemma {:induction false} MapPermutes<T, U>(a: seq<T>, b: seq<T>, f: T -> U)
    requires multiset(a) == multiset(b)
    ensures multiset(Map(a, f)) == multiset(Map(b, f))
    decreases |b|
  {
    if b == [] {
      assert |a| == |multiset(a)| == 0;
    } else {
      var b', y := b[..|b| - 1], b[|b| - 1];
      assert b == b' + [y];
      assert y in multiset(a) by {
        assert multiset(b) == multiset(b') + multiset{y};
      }
      var j :| 0 <= j < |a| && a[j] == y;
      var left, right := a[..j], a[j + 1..];
      RemoveAt(a, j);
      assert multiset(left + right) == multiset(b') by {
        assert multiset(left + right) == multiset(a) - multiset{y};
        assert multiset(b') == multiset(b) - multiset{y};
      }
      MapPermutes(left + right, b', f);
      MapConcat(left + [y], right, f);
      MapConcat(left, [y], f);
      MapConcat(left, right, f);
      MapConcat(b', [y], f);
    }
  }

  /** Filtering inputs that hold the same elements gives outputs that hold the same elements. */
  lemma {:induction false} FilterPermutes<T>(a: seq<T>, b: seq<T>, p: T -> bool)
    requires multiset(a) == multiset(b)
    ensures multiset(Filter(a, p)) == multiset(Filter(b, p))
    decreases |b|
  {
    if b == [] {
      assert |a| == |multiset(a)| == 0;
    } else {
      var b', y := b[..|b| - 1], b[|b| - 1];
      assert b == b' + [y];
      assert y in multiset(a) by {
        assert multiset(b) == multiset(b') + multiset{y};
      }
      var j :| 0 <= j < |a| && a[j] == y;
      var left, right := a[..j], a[j + 1..];
      RemoveAt(a, j);
      assert multiset(left + right) == multiset(b') by {
        assert multiset(left + right) == multiset(a) - multiset{y};
        assert multiset(b') == multiset(b) - multiset{y};
      }
      FilterPermutes(left + right, b', p);
      FilterConcat(left + [y], right, p);
      FilterConcat(left, [y], p);
      FilterConcat(left, right, p);
      FilterConcat(b', [y], p);
    }
  }

  /** Every element of a filtered-then-mapped sequence is the image of a kept element. */
  lemma {:induction false} MapFilterFrom<T, U>(s: seq<T>, p: T -> bool, f: T -> U, y: U)
    requires y in Map(Filter(s, p), f)
    ensures exists x :: x in s && p(x) && y == f(x)
  {
    var kept := Filter(s, p);
    var i :| 0 <= i < |kept| && Map(kept, f)[i] == y;
    FilterMembers(s, p, kept[i]);
  }

  /** The image of every kept element is in the filtered-then-mapped sequence. */
  lemma {:induction false} MapFilterHas<T, U>(s: seq<T>, p: T -> bool, f: T -> U, x: T)
    requires x in s && p(x)
    ensures f(x) in Map(Filter(s, p), f)
  {
    var kept := Filter(s, p);
    FilterMembers(s, p, x);
    var i :| 0 <= i < |kept| && kept[i] == x;
    assert Map(kept, f)[i] == f(x);
  }
}
