/** Collecting values from a sequence in order, as a comprehension with a filter does. */
module Sequences {
  import opened Options

  /** `[f(x) for x in s if f(x) is not None]`, grown from the left as a loop grows it. */
  function Collect<A, B>(s: seq<A>, f: A -> Option<B>): (r: seq<B>) {
    if s == [] then []
    else
      var last := f(s[|s| - 1]);
      Collect(s[..|s| - 1], f) + if last.Some? then [last.value] else []
  }

  function Filter<A>(s: seq<A>, p: A -> bool): (r: seq<A>) {
    if s == [] then []
    else Filter(s[..|s| - 1], p) + if p(s[|s| - 1]) then [s[|s| - 1]] else []
  }

  lemma CollectStep<A, B>(s: seq<A>, i: nat, f: A -> Option<B>)
    requires i < |s|
    ensures Collect(s[..i + 1], f) == Collect(s[..i], f) + if f(s[i]).Some? then [f(s[i]).value] else []
  {
    assert s[..i + 1][..i] == s[..i];
  }

  lemma {:induction false} CollectConcat<A, B>(a: seq<A>, b: seq<A>, f: A -> Option<B>)
    ensures Collect(a + b, f) == Collect(a, f) + Collect(b, f)
  {
    if b == [] {
      assert a + b == a;
    } else {
      assert (a + b)[..|a + b| - 1] == a + b[..|b| - 1];
      CollectConcat(a, b[..|b| - 1], f);
    }
  }

  lemma {:induction false} FilterConcat<A>(a: seq<A>, b: seq<A>, p: A -> bool)
    ensures Filter(a + b, p) == Filter(a, p) + Filter(b, p)
  {
    if b == [] {
      assert a + b == a;
    } else {
      assert (a + b)[..|a + b| - 1] == a + b[..|b| - 1];
      FilterConcat(a, b[..|b| - 1], p);
    }
  }

  function One<A, B>(x: A, f: A -> Option<B>): seq<B> {
    if f(x).Some? then [f(x).value] else []
  }

  lemma MoveOut<T>(a: seq<T>, m: seq<T>, c: seq<T>)
    ensures multiset(a + (m + c)) == multiset(a + c) + multiset(m)
  {
    assert multiset(a + (m + c)) == multiset(a) + (multiset(m) + multiset(c));
    assert multiset(a + c) == multiset(a) + multiset(c);
  }

  lemma CollectAround<A, B>(a: seq<A>, x: A, c: seq<A>, f: A -> Option<B>)
    ensures Collect(a + ([x] + c), f) == Collect(a, f) + (One(x, f) + Collect(c, f))
  {
    CollectConcat(a, [x] + c, f);
    CollectConcat([x], c, f);
    CollectStep([x], 0, f);
    assert [x][..0] == [] && [x][..1] == [x];
  }

  lemma CollectWithout<A, B>(a: seq<A>, x: A, c: seq<A>, f: A -> Option<B>)
    ensures multiset(Collect(a + ([x] + c), f)) == multiset(Collect(a + c, f)) + multiset(One(x, f))
  {
    CollectAround(a, x, c, f);
    CollectConcat(a, c, f);
    MoveOut(Collect(a, f), One(x, f), Collect(c, f));
  }

  lemma Cancel<T>(a: multiset<T>, b: multiset<T>, c: multiset<T>)
    requires a + c == b + c
    ensures a == b
  {
    forall x ensures a[x] == b[x] {
      assert (a + c)[x] == (b + c)[x];
    }
  }

  /** Where the first element of one permutation sits in the other. */
  lemma FindHead<A>(a: seq<A>, b: seq<A>) returns (pre: seq<A>, post: seq<A>)
    requires a != [] && multiset(a) == multiset(b)
    ensures b == pre + ([a[0]] + post)
    ensures multiset(a[1..]) == multiset(pre + post)
  {
    pre, post := SplitAtHead(a, b);
    MoveOut(pre, [a[0]], post);
    MoveOut([], [a[0]], a[1..]);
    assert a == [] + ([a[0]] + a[1..]) && [] + a[1..] == a[1..];
    Cancel(multiset(a[1..]), multiset(pre + post), multiset([a[0]]));
  }

  lemma SplitAtHead<A>(a: seq<A>, b: seq<A>) returns (pre: seq<A>, post: seq<A>)
    requires a != [] && multiset(a) == multiset(b)
    ensures b == pre + ([a[0]] + post)
  {
    assert a[0] in multiset(a);
    var j :| 0 <= j < |b| && b[j] == a[0];
    pre, post := b[..j], b[j + 1..];
  }

  /** The collected values, counted, do not depend on the order of the sequence. */
  lemma {:induction false} CollectPermutation<A, B>(a: seq<A>, b: seq<A>, f: A -> Option<B>)
    requires multiset(a) == multiset(b)
    ensures multiset(Collect(a, f)) == multiset(Collect(b, f))
  {
    if a == [] {
      assert |multiset(b)| == |b|;
      assert b == [];
    } else {
      var pre, post := FindHead(a, b);
      assert a == [] + ([a[0]] + a[1..]) && [] + a[1..] == a[1..];
      CollectWithout([], a[0], a[1..], f);
      CollectWithout(pre, a[0], post, f);
      CollectPermutation(a[1..], pre + post, f);
    }
  }

  lemma {:induction false} FilterAllOrNone<A>(s: seq<A>, p: A -> bool, all: bool)
    requires forall x :: x in s ==> p(x) == all
    ensures Filter(s, p) == if all then s else []
  {
    if s != [] {
      assert s == s[..|s| - 1] + [s[|s| - 1]];
      FilterAllOrNone(s[..|s| - 1], p, all);
    }
  }

  lemma {:induction false} FilterMembers<A>(s: seq<A>, p: A -> bool)
    ensures forall x :: x in Filter(s, p) <==> x in s && p(x)
  {
    if s != [] {
      FilterMembers(s[..|s| - 1], p);
      assert s == s[..|s| - 1] + [s[|s| - 1]];
    }
  }

  lemma {:induction false} FilterCount<A>(s: seq<A>, p: A -> bool, x: A)
    ensures multiset(Filter(s, p))[x] == if p(x) then multiset(s)[x] else 0
  {
    if s != [] {
      var before, last := s[..|s| - 1], s[|s| - 1];
      FilterCount(before, p, x);
      assert s == before + [last];
      assert multiset(s) == multiset(before) + multiset([last]);
      assert multiset(Filter(s, p)) == multiset(Filter(before, p)) + multiset(if p(last) then [last] else []);
    }
  }

  /** What a filter drops without losing a value makes no difference. */
  lemma {:induction false} CollectAfterFilter<A, B>(s: seq<A>, p: A -> bool, f: A -> Option<B>)
    requires forall x :: x in s && f(x).Some? ==> p(x)
    ensures Collect(Filter(s, p), f) == Collect(s, f)
  {
    if s != [] {
      var before, last := s[..|s| - 1], s[|s| - 1];
      CollectAfterFilter(before, p, f);
      if p(last) {
        assert (Filter(before, p) + [last])[..|Filter(before, p)|] == Filter(before, p);
      } else {
        assert Filter(before, p) + [] == Filter(before, p);
      }
    }
  }

  /** Filtering the collected values is collecting from the filtered sequence. */
  lemma {:induction false} FilterOfCollect<A, B>(s: seq<A>, f: A -> Option<B>, q: A -> bool, p: B -> bool)
    requires forall x :: x in s && f(x).Some? ==> (q(x) <==> p(f(x).value))
    ensures Filter(Collect(s, f), p) == Collect(Filter(s, q), f)
  {
    if s != [] {
      var before, last := s[..|s| - 1], s[|s| - 1];
      FilterOfCollect(before, f, q, p);
      assert last in s;
      var b := Collect(before, f);
      if f(last).Some? {
        assert (b + [f(last).value])[..|b|] == b;
      } else {
        assert b + [] == b;
      }
      var g := Filter(before, q);
      if q(last) {
        assert (g + [last])[..|g|] == g;
      } else {
        assert g + [] == g;
      }
    }
  }

  lemma {:induction false} CollectAgrees<A, B>(s: seq<A>, f: A -> Option<B>, g: A -> Option<B>)
    requires forall x :: x in s ==> f(x) == g(x)
    ensures Collect(s, f) == Collect(s, g)
  {
    if s != [] {
      CollectAgrees(s[..|s| - 1], f, g);
    }
  }

  /** Collecting from elements that all yield a value. */
  lemma {:induction false} CollectAll<A, B>(s: seq<A>, f: A -> Option<B>)
    requires forall x :: x in s ==> f(x).Some?
    ensures |Collect(s, f)| == |s| && forall i :: 0 <= i < |s| ==> Collect(s, f)[i] == f(s[i]).value
  {
    if s != [] {
      CollectAll(s[..|s| - 1], f);
    }
  }

  /** Collected values keep the order of their elements. */
  lemma {:induction false} CollectAscends<A, B>(s: seq<A>, f: A -> Option<B>, k: nat, l: nat) returns (i: nat, j: nat)
    requires k < l < |Collect(s, f)|
    ensures i < j < |s| && f(s[i]) == Some(Collect(s, f)[k]) && f(s[j]) == Some(Collect(s, f)[l])
  {
    var before, last := s[..|s| - 1], s[|s| - 1];
    if l < |Collect(before, f)| {
      i, j := CollectAscends(before, f, k, l);
    } else {
      i := CollectedFrom(before, f, k);
      j := |s| - 1;
    }
  }

  lemma {:induction false} CollectedFrom<A, B>(s: seq<A>, f: A -> Option<B>, k: nat) returns (i: nat)
    requires k < |Collect(s, f)|
    ensures i < |s| && f(s[i]) == Some(Collect(s, f)[k])
  {
    var before := s[..|s| - 1];
    if k < |Collect(before, f)| {
      i := CollectedFrom(before, f, k);
    } else {
      i := |s| - 1;
    }
  }

  /** Where collected values come from. */
  lemma {:induction false} CollectOrigins<A(!new), B>(s: seq<A>, f: A -> Option<B>)
    ensures forall b :: b in Collect(s, f) ==> exists x :: x in s && f(x) == Some(b)
    ensures forall x :: x in s && f(x).Some? ==> f(x).value in Collect(s, f)
  {
    if s != [] {
      var before, last := s[..|s| - 1], s[|s| - 1];
      CollectOrigins(before, f);
      assert s == before + [last];
    }
  }
}
