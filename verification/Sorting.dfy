/** Python's `sorted` over a total order, for sequences and for sets, and the fact
    that makes a sorted output independent of the order of its input. */
module Sorting {
  import opened Sequences

  ghost predicate TotalOrder<T(!new)>(le: (T, T) -> bool) {
    && (forall x, y :: le(x, y) || le(y, x))
    && (forall x, y :: le(x, y) && le(y, x) ==> x == y)
    && (forall x, y, z :: le(x, y) && le(y, z) ==> le(x, z))
  }

  ghost predicate Sorted<T>(s: seq<T>, le: (T, T) -> bool) {
    forall i, j :: 0 <= i < j < |s| ==> le(s[i], s[j])
  }

  function SetOf<T>(s: seq<T>): set<T> {
    set x | x in s
  }

  /** The order of Python's integers (and, here, of its datetimes). */
  predicate IntLe(a: int, b: int) {
    a <= b
  }

  function Insert<T(!new)>(x: T, s: seq<T>, le: (T, T) -> bool): (r: seq<T>)
    ensures multiset(r) == multiset{x} + multiset(s)
  {
    if s == [] then [x]
    else if le(x, s[0]) then [x] + s
    else
      assert s == [s[0]] + s[1..];
      [s[0]] + Insert(x, s[1..], le)
  }

  lemma {:induction false} InsertKeepsSorted<T(!new)>(x: T, s: seq<T>, le: (T, T) -> bool)
    requires TotalOrder(le) && Sorted(s, le)
    ensures Sorted(Insert(x, s, le), le)
  {
    if s != [] && !le(x, s[0]) {
      InsertKeepsSorted(x, s[1..], le);
      var t := Insert(x, s[1..], le);
      forall i | 0 <= i < |t| ensures le(s[0], t[i]) {
        assert t[i] in multiset(t);
        assert t[i] == x || t[i] in s[1..];
      }
    }
  }

  /** `sorted(s)`: with a total order, stability cannot be observed. */
  function Sort<T(!new)>(s: seq<T>, le: (T, T) -> bool): (r: seq<T>)
    requires TotalOrder(le)
    ensures multiset(r) == multiset(s) && Sorted(r, le)
  {
    if s == [] then []
    else
      assert s == [s[0]] + s[1..];
      InsertKeepsSorted(s[0], Sort(s[1..], le), le);
      Insert(s[0], Sort(s[1..], le), le)
  }

  /** Two sorted sequences with the same elements, counted, are the same sequence. */
  lemma {:induction false} SortedUnique<T(!new)>(a: seq<T>, b: seq<T>, le: (T, T) -> bool)
    requires TotalOrder(le) && Sorted(a, le) && Sorted(b, le)
    requires multiset(a) == multiset(b)
    ensures a == b
  {
    if a == [] {
      assert |multiset(b)| == 0;
    } else {
      assert |multiset(a)| == |a| && |multiset(b)| == |b|;
      assert a[0] in multiset(b) && b[0] in multiset(a);
      assert a[0] in b && b[0] in a;
      assert a[0] == b[0];
      assert a == [a[0]] + a[1..] && b == [b[0]] + b[1..];
      assert multiset(a[1..]) == multiset(a) - multiset{a[0]};
      SortedUnique(a[1..], b[1..], le);
    }
  }

  lemma SortPermutation<T(!new)>(a: seq<T>, b: seq<T>, le: (T, T) -> bool)
    requires TotalOrder(le) && multiset(a) == multiset(b)
    ensures Sort(a, le) == Sort(b, le)
  {
    SortedUnique(Sort(a, le), Sort(b, le), le);
  }

  ghost predicate IsLeast<T>(x: T, s: set<T>, le: (T, T) -> bool) {
    x in s && forall y :: y in s ==> le(x, y)
  }

  lemma LeastOfLarger<T(!new)>(z: T, w: T, rest: set<T>, le: (T, T) -> bool)
    requires TotalOrder(le) && IsLeast(w, rest, le)
    ensures IsLeast(if le(z, w) then z else w, rest + {z}, le)
  {
    var x := if le(z, w) then z else w;
    assert le(z, z) && le(w, w) && le(x, z) && le(x, w);
    forall y | y in rest + {z} ensures le(x, y) {
      if y in rest {
        assert le(w, y);
      }
    }
  }

  lemma {:induction false} LeastExists<T(!new)>(s: set<T>, le: (T, T) -> bool)
    requires TotalOrder(le) && s != {}
    ensures exists x :: IsLeast(x, s, le)
  {
    var z :| z in s;
    var rest := s - {z};
    assert s == rest + {z};
    if rest == {} {
      assert le(z, z);
      assert IsLeast(z, s, le);
    } else {
      LeastExists(rest, le);
      var w :| IsLeast(w, rest, le);
      LeastOfLarger(z, w, rest, le);
    }
  }

  function Least<T(!new)>(s: set<T>, le: (T, T) -> bool): (x: T)
    requires TotalOrder(le) && s != {}
    ensures IsLeast(x, s, le)
  {
    LeastExists(s, le);
    assert forall x, y :: IsLeast(x, s, le) && IsLeast(y, s, le) ==> le(x, y) && le(y, x);
    var x :| x in s && forall y :: y in s ==> le(x, y);
    x
  }

  /** `sorted(s)` for a set: ascending, every element once. */
  function SortSet<T(!new)>(s: set<T>, le: (T, T) -> bool): (r: seq<T>)
    requires TotalOrder(le)
    ensures Sorted(r, le) && multiset(r) == multiset(s)
  {
    if s == {} then []
    else
      var x := Least(s, le);
      var rest := SortSet(s - {x}, le);
      assert forall i :: 0 <= i < |rest| ==> rest[i] in multiset(rest);
      assert multiset(s) == multiset{x} + multiset(s - {x});
      [x] + rest
  }

  lemma NoDuplicates<T>(r: seq<T>, s: set<T>, i: nat, j: nat)
    requires multiset(r) == multiset(s) && i < j < |r|
    ensures r[i] != r[j]
  {
    assert r == r[..j] + r[j..];
    assert multiset(r) == multiset(r[..j]) + multiset(r[j..]);
    assert r[i] in r[..j] && r[j] in r[j..];
    assert multiset(r)[r[i]] <= 1;
  }

  lemma SortSetMembers<T(!new)>(s: set<T>, le: (T, T) -> bool)
    requires TotalOrder(le)
    ensures SetOf(SortSet(s, le)) == s
    ensures |SortSet(s, le)| == |s|
    ensures forall i, j :: 0 <= i < j < |SortSet(s, le)| ==> SortSet(s, le)[i] != SortSet(s, le)[j]
  {
    var r := SortSet(s, le);
    SameMembers(r, s);
    assert |multiset(r)| == |r|;
    forall i, j | 0 <= i < j < |r| ensures r[i] != r[j] {
      NoDuplicates(r, s, i, j);
    }
  }

  lemma SameMembers<T>(r: seq<T>, s: set<T>)
    requires multiset(r) == multiset(s)
    ensures SetOf(r) == s
  {
    forall x ensures x in r <==> x in s {
      assert x in r <==> x in multiset(r);
    }
  }

  /** A sequence that is sorted and lists exactly the elements of `s`, each once, is `sorted(s)`. */
  lemma SortSetUnique<T(!new)>(r: seq<T>, s: set<T>, le: (T, T) -> bool)
    requires TotalOrder(le) && Sorted(r, le) && multiset(r) == multiset(s)
    ensures r == SortSet(s, le)
  {
    SortedUnique(r, SortSet(s, le), le);
  }

  lemma {:induction false} FilterKeepsSorted<T(!new)>(s: seq<T>, p: T -> bool, le: (T, T) -> bool)
    requires Sorted(s, le)
    ensures Sorted(Filter(s, p), le)
  {
    if s != [] {
      var before, last := s[..|s| - 1], s[|s| - 1];
      FilterKeepsSorted(before, p, le);
      FilterMembers(before, p);
      var f := Filter(before, p);
      forall i | 0 <= i < |f| ensures le(f[i], last) {
        assert f[i] in before;
      }
    }
  }

  lemma FilterSortSet<T(!new)>(s: set<T>, p: T -> bool, kept: set<T>, le: (T, T) -> bool)
    requires TotalOrder(le)
    requires forall x :: x in kept <==> x in s && p(x)
    ensures Filter(SortSet(s, le), p) == SortSet(kept, le)
  {
    var r := SortSet(s, le);
    FilterKeepsSorted(r, p, le);
    forall x ensures multiset(Filter(r, p))[x] == multiset(kept)[x] {
      FilterCount(r, p, x);
      assert multiset(r)[x] == multiset(s)[x];
    }
    SortSetUnique(Filter(r, p), kept, le);
  }
}
