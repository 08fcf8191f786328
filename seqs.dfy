/** Order-preserving filtering and set-to-list conversion:
    the slice idioms the Go code repeats in many places (a loop that appends
    what it keeps, `sets.New(...).UnsortedList()`). */
module Seqs {
  import opened Wrappers

  /** The elements of `s` that satisfy `p`, in order. */
  function Filter<T>(p: T -> bool, s: seq<T>): (r: seq<T>)
    ensures |r| <= |s|
    ensures forall k | 0 <= k < |r| :: p(r[k])
  {
    if s == [] then []
    else
      var init, last := s[..|s| - 1], s[|s| - 1];
      Filter(p, init) + (if p(last) then [last] else [])
  }

  /** A non-empty list is its front followed by its last element. */
  lemma Snoc<T>(s: seq<T>)
    requires s != []
    ensures s == s[..|s| - 1] + [s[|s| - 1]]
  {
  }

  lemma PrefixOfPrefix<T>(s: seq<T>, i: nat, j: nat)
    requires i <= j <= |s|
    ensures s[..j][..i] == s[..i]
  {
  }

  lemma SnocPrefix<T>(s: seq<T>, x: T)
    ensures (s + [x])[..|s|] == s && (s + [x])[|s|] == x
  {
  }

  lemma FilterSnoc<T>(p: T -> bool, s: seq<T>, x: T)
    ensures Filter(p, s + [x]) == Filter(p, s) + (if p(x) then [x] else [])
  {
    assert (s + [x])[..|s|] == s;
  }

  /** Filtering depends only on which elements the predicate accepts. */
  lemma {:induction false} FilterExt<T>(p: T -> bool, q: T -> bool, s: seq<T>)
    requires forall x :: p(x) == q(x)
    ensures Filter(p, s) == Filter(q, s)
    decreases |s|
  {
    if s != [] {
      FilterExt(p, q, s[..|s| - 1]);
    }
  }

  lemma {:induction false} FilterMembers<T>(p: T -> bool, s: seq<T>, x: T)
    ensures x in Filter(p, s) <==> x in s && p(x)
    decreases |s|
  {
    if s != [] {
      FilterMembers(p, s[..|s| - 1], x);
      assert s == s[..|s| - 1] + [s[|s| - 1]];
    }
  }

  /** Filtering keeps a list whose every element passes. */
  lemma {:induction false} FilterAllPass<T>(p: T -> bool, s: seq<T>)
    requires forall k | 0 <= k < |s| :: p(s[k])
    ensures Filter(p, s) == s
    decreases |s|
  {
    if s != [] {
      FilterAllPass(p, s[..|s| - 1]);
    }
  }

  /** Filtering drops a list whose every element fails. */
  lemma {:induction false} FilterNonePass<T>(p: T -> bool, s: seq<T>)
    requires forall k | 0 <= k < |s| :: !p(s[k])
    ensures Filter(p, s) == []
    decreases |s|
  {
    if s != [] {
      FilterNonePass(p, s[..|s| - 1]);
    }
  }

  /** Filtering a concatenation filters each part. */
  lemma {:induction false} FilterAppend<T>(p: T -> bool, a: seq<T>, b: seq<T>)
    ensures Filter(p, a + b) == Filter(p, a) + Filter(p, b)
    decreases |b|
  {
    if b != [] {
      var init, last := b[..|b| - 1], b[|b| - 1];
      assert a + b == (a + init) + [last];
      FilterAppend(p, a, init);
      FilterSnoc(p, a + init, last);
    } else {
      assert a + b == a;
    }
  }

  lemma FilterIdempotent<T>(p: T -> bool, s: seq<T>)
    ensures Filter(p, Filter(p, s)) == Filter(p, s)
  {
    FilterAllPass(p, Filter(p, s));
  }

  /** The complement of a predicate. */
  function Not<T(!new)>(p: T -> bool): (q: T -> bool)
    ensures forall x :: q(x) == !p(x)
  {
    x => !p(x)
  }

  /** What a predicate keeps and what it drops together make up the input. */
  lemma {:induction false} FilterPartition<T(!new)>(p: T -> bool, s: seq<T>)
    ensures multiset(Filter(p, s)) + multiset(Filter(Not(p), s)) == multiset(s)
    decreases |s|
  {
    if s != [] {
      var init, last := s[..|s| - 1], s[|s| - 1];
      assert s == init + [last];
      FilterPartition(p, init);
      FilterSnoc(p, init, last);
      FilterSnoc(Not(p), init, last);
      if p(last) {
        assert Filter(Not(p), s) == Filter(Not(p), init);
        assert multiset(Filter(p, s)) == multiset(Filter(p, init)) + multiset{last};
      } else {
        assert Filter(p, s) == Filter(p, init);
        assert multiset(Filter(Not(p), s)) == multiset(Filter(Not(p), init)) + multiset{last};
      }
    }
  }

  /** The lists one after another, in order. */
  function Flatten<T>(ss: seq<seq<T>>): seq<T> {
    if ss == [] then []
    else Flatten(ss[..|ss| - 1]) + ss[|ss| - 1]
  }

  lemma FlattenSnoc<T>(ss: seq<seq<T>>, s: seq<T>)
    ensures Flatten(ss + [s]) == Flatten(ss) + s
  {
    assert (ss + [s])[..|ss|] == ss;
  }

  lemma {:induction false} FlattenMembers<T>(ss: seq<seq<T>>, x: T)
    ensures x in Flatten(ss) <==> exists i | 0 <= i < |ss| :: x in ss[i]
    decreases |ss|
  {
    if ss != [] {
      var init := ss[..|ss| - 1];
      FlattenMembers(init, x);
      assert forall i | 0 <= i < |init| :: init[i] == ss[i];
    }
  }

  /** `f` applied to every element, the results one after another. */
  function FlatMap<A, B>(f: A -> seq<B>, s: seq<A>): seq<B> {
    if s == [] then []
    else FlatMap(f, s[..|s| - 1]) + f(s[|s| - 1])
  }

  lemma FlatMapSnoc<A, B>(f: A -> seq<B>, s: seq<A>, i: nat)
    requires i < |s|
    ensures FlatMap(f, s[..i + 1]) == FlatMap(f, s[..i]) + f(s[i])
  {
    PrefixOfPrefix(s, i, i + 1);
  }

  lemma {:induction false} FlatMapMembers<A, B>(f: A -> seq<B>, s: seq<A>, x: B)
    ensures x in FlatMap(f, s) <==> exists i | 0 <= i < |s| :: x in f(s[i])
    decreases |s|
  {
    if s != [] {
      var n := |s| - 1;
      var init := s[..n];
      FlatMapMembers(f, init, x);
      if exists i | 0 <= i < |s| :: x in f(s[i]) {
        var i :| 0 <= i < |s| && x in f(s[i]);
        if i < n { assert init[i] == s[i]; }
      }
      if exists i | 0 <= i < |init| :: x in f(init[i]) {
        var i :| 0 <= i < |init| && x in f(init[i]);
        assert s[i] == init[i];
      }
    }
  }

  /** When `f` gives at most one element for every input, the result is no
      longer than the input. */
  lemma {:induction false} FlatMapAtMostOne<A, B>(f: A -> seq<B>, s: seq<A>)
    requires forall i | 0 <= i < |s| :: |f(s[i])| <= 1
    ensures |FlatMap(f, s)| <= |s|
    decreases |s|
  {
    if s != [] {
      var init := s[..|s| - 1];
      assert forall i | 0 <= i < |init| :: init[i] == s[i];
      FlatMapAtMostOne(f, init);
    }
  }

  /** When `f` gives one element for every input, the result is as long as
      the input. */
  lemma {:induction false} FlatMapLength<A, B>(f: A -> seq<B>, s: seq<A>)
    requires forall i | 0 <= i < |s| :: |f(s[i])| == 1
    ensures |FlatMap(f, s)| == |s|
    decreases |s|
  {
    if s != [] {
      var init := s[..|s| - 1];
      assert forall i | 0 <= i < |init| :: init[i] == s[i];
      FlatMapLength(f, init);
    }
  }

  /** Two permutations of each other that start alike continue as
      permutations of each other. */
  lemma SameTails<T>(a: seq<T>, b: seq<T>)
    requires a != [] && b != [] && a[0] == b[0] && multiset(a) == multiset(b)
    ensures multiset(a[1..]) == multiset(b[1..])
  {
    assert a == [a[0]] + a[1..] && b == [b[0]] + b[1..];
    assert multiset(a) == multiset{a[0]} + multiset(a[1..]);
    assert multiset(b) == multiset{a[0]} + multiset(b[1..]);
    forall y ensures multiset(a[1..])[y] == multiset(b[1..])[y] {
      assert multiset(a)[y] == multiset{a[0]}[y] + multiset(a[1..])[y];
      assert multiset(b)[y] == multiset{a[0]}[y] + multiset(b[1..])[y];
    }
  }

  /** An element at two positions occurs at least twice. */
  lemma TwicePlaced<T>(s: seq<T>, i: nat, j: nat)
    requires i < j < |s|
    ensures s[i] == s[j] ==> multiset(s)[s[i]] >= 2
  {
    if s[i] == s[j] {
      assert s == s[..j] + [s[j]] + s[j + 1..];
      assert s[..j][i] == s[i];
      assert s[i] in multiset(s[..j]);
    }
  }

  /** An element occurring at least twice sits at two positions. */
  lemma {:induction false} TwoPlaces<T>(s: seq<T>, x: T)
    requires multiset(s)[x] >= 2
    ensures exists k, l | 0 <= k < l < |s| :: s[k] == x && s[l] == x
    decreases |s|
  {
    var n := |s| - 1;
    var init := s[..n];
    assert s == init + [s[n]];
    if s[n] == x {
      assert x in multiset(init);
      var k :| 0 <= k < |init| && init[k] == x;
      assert s[k] == x && s[n] == x;
    } else {
      TwoPlaces(init, x);
      var k, l :| 0 <= k < l < |init| && init[k] == x && init[l] == x;
      assert s[k] == x && s[l] == x;
    }
  }

  predicate NoDup<T(==)>(s: seq<T>) {
    forall i, j | 0 <= i < j < |s| :: s[i] != s[j]
  }

  /** Filtering a list without duplicates gives one without duplicates. */
  lemma {:induction false} FilterNoDup<T>(p: T -> bool, s: seq<T>)
    requires NoDup(s)
    ensures NoDup(Filter(p, s))
    decreases |s|
  {
    if s != [] {
      var init, last := s[..|s| - 1], s[|s| - 1];
      assert NoDup(init);
      FilterNoDup(p, init);
      FilterMembers(p, init, last);
    }
  }

  /** sets.New(s...).UnsortedList(): every distinct element once, in an order
      the model leaves open (Go map iteration order). */
  method UnsortedList<T(==)>(s: seq<T>) returns (r: seq<T>)
    ensures NoDup(r)
    ensures forall x :: x in r <==> x in s
  {
    var pending := set x | x in s;
    r := [];
    while pending != {}
      invariant NoDup(r)
      invariant forall x :: x in r ==> x !in pending
      invariant forall x :: x in s <==> x in r || x in pending
      decreases pending
    {
      var x :| x in pending;
      r := r + [x];
      pending := pending - {x};
    }
  }
}
