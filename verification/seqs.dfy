/** Order-preserving filtering and the stable sort that JavaScript's
    `Array.prototype.sort` performs for a comparator derived from a key. */
module Seqs {
  import opened Wrappers

  /** The elements of `s` that satisfy `p`, in their original order. */
  function Filter<T(!new)>(p: T -> bool, s: seq<T>): (r: seq<T>)
    ensures |r| <= |s|
    ensures forall i :: 0 <= i < |r| ==> p(r[i])
  {
    if s == [] then []
    else
      (if p(s[0]) then [s[0]] else []) + Filter(p, s[1..])
  }

  /** `Filter` keeps exactly the elements of `s` that satisfy `p`. */
  lemma {:induction false} FilterMembers<T(!new)>(p: T -> bool, s: seq<T>, x: T)
    ensures x in Filter(p, s) <==> x in s && p(x)
  {
    FilterCount(p, s, x);
    assert x in Filter(p, s) <==> x in multiset(Filter(p, s));
    assert x in s <==> x in multiset(s);
  }

  /** `Filter` keeps every satisfying element as often as it occurs and
      drops every other one. */
  lemma {:induction false} FilterCount<T(!new)>(p: T -> bool, s: seq<T>, x: T)
    ensures multiset(Filter(p, s))[x] == if p(x) then multiset(s)[x] else 0
  {
    if s != [] {
      FilterCount(p, s[1..], x);
      assert s == [s[0]] + s[1..];
    }
  }

  /** Filtering distributes over concatenation; together with the contents
      clause of `Filter` this pins down the order of the kept elements. */
  lemma {:induction false} FilterConcat<T(!new)>(p: T -> bool, a: seq<T>, b: seq<T>)
    ensures Filter(p, a + b) == Filter(p, a) + Filter(p, b)
  {
    if a == [] {
      assert a + b == b;
    } else {
      assert (a + b)[1..] == a[1..] + b;
      FilterConcat(p, a[1..], b);
    }
  }

  /** Filtering with a predicate every element satisfies changes nothing. */
  lemma {:induction false} FilterAll<T(!new)>(p: T -> bool, s: seq<T>)
    requires forall i :: 0 <= i < |s| ==> p(s[i])
    ensures Filter(p, s) == s
  {
    if s != [] {
      FilterAll(p, s[1..]);
    }
  }

  /** Filtering with a predicate no element satisfies leaves nothing. */
  lemma {:induction false} FilterNone<T(!new)>(p: T -> bool, s: seq<T>)
    requires forall i :: 0 <= i < |s| ==> !p(s[i])
    ensures Filter(p, s) == []
  {
    if s != [] {
      FilterNone(p, s[1..]);
    }
  }

  /** Filtering by `p` after filtering by a weaker `q` is filtering by `p`. */
  lemma {:induction false} FilterFilter<T(!new)>(p: T -> bool, q: T -> bool, s: seq<T>)
    requires forall i :: 0 <= i < |s| && p(s[i]) ==> q(s[i])
    ensures Filter(p, Filter(q, s)) == Filter(p, s)
  {
    if s != [] {
      FilterFilter(p, q, s[1..]);
      var rest := Filter(q, s[1..]);
      if q(s[0]) {
        assert Filter(q, s) == [s[0]] + rest;
        assert ([s[0]] + rest)[1..] == rest;
        assert Filter(p, [s[0]] + rest) == (if p(s[0]) then [s[0]] else []) + Filter(p, rest);
        assert Filter(p, rest) == Filter(p, s[1..]);
        assert Filter(p, s) == (if p(s[0]) then [s[0]] else []) + Filter(p, s[1..]);
      } else {
        assert Filter(q, s) == rest;
        assert !p(s[0]);
        assert Filter(p, s) == Filter(p, s[1..]);
      }
    }
  }

  /** `s` is in non-decreasing order of `key`. */
  ghost predicate SortedBy<T>(s: seq<T>, key: T -> real)
  {
    forall i, j :: 0 <= i < j < |s| ==> key(s[i]) <= key(s[j])
  }

  /** A subsequence of a sorted sequence is sorted. */
  lemma {:induction false} FilterSorted<T(!new)>(p: T -> bool, s: seq<T>, key: T -> real)
    requires SortedBy(s, key)
    ensures SortedBy(Filter(p, s), key)
  {
    if s != [] {
      FilterSorted(p, s[1..], key);
      var rest := Filter(p, s[1..]);
      forall x | x in rest
        ensures key(s[0]) <= key(x)
      {
        FilterMembers(p, s[1..], x);
        var k :| 0 <= k < |s[1..]| && s[1..][k] == x;
        assert s[k + 1] == x;
      }
    }
  }

  /** Inserts `x` in front of the first element whose key is not smaller,
      so that `x` precedes every element of `s` with an equal key. */
  function InsertBy<T>(x: T, s: seq<T>, key: T -> real): (r: seq<T>)
    ensures |r| == |s| + 1
  {
    if s == [] || key(x) <= key(s[0]) then
      [x] + s
    else
      [s[0]] + InsertBy(x, s[1..], key)
  }

  /** Inserting adds exactly one occurrence of `x`. */
  lemma {:induction false} InsertByMultiset<T>(x: T, s: seq<T>, key: T -> real)
    ensures multiset(InsertBy(x, s, key)) == multiset(s) + multiset{x}
  {
    if s != [] && key(x) > key(s[0]) {
      InsertByMultiset(x, s[1..], key);
      assert s == [s[0]] + s[1..];
    }
  }

  /** Inserting into a sorted sequence keeps it sorted. */
  lemma {:induction false} InsertBySorted<T>(x: T, s: seq<T>, key: T -> real)
    requires SortedBy(s, key)
    ensures SortedBy(InsertBy(x, s, key), key)
  {
    if s != [] && key(x) > key(s[0]) {
      InsertBySorted(x, s[1..], key);
      InsertByMultiset(x, s[1..], key);
      var r := InsertBy(x, s[1..], key);
      forall i | 0 <= i < |r|
        ensures key(s[0]) <= key(r[i])
      {
        assert r[i] in multiset(s[1..]) + multiset{x};
        if r[i] != x {
          var k :| 0 <= k < |s[1..]| && s[1..][k] == r[i];
          assert s[k + 1] == r[i];
        }
      }
    }
  }

  /** Stable insertion sort by `key`: elements with equal keys keep their
      relative order, as they do under JavaScript's stable `sort`. */
  function SortBy<T>(s: seq<T>, key: T -> real): (r: seq<T>)
    ensures multiset(r) == multiset(s)
    ensures SortedBy(r, key)
  {
    if s == [] then []
    else
      assert s == [s[0]] + s[1..];
      InsertBySorted(s[0], SortBy(s[1..], key), key);
      InsertByMultiset(s[0], SortBy(s[1..], key), key);
      InsertBy(s[0], SortBy(s[1..], key), key)
  }

  /** Inserting into a sorted sequence commutes with filtering. */
  lemma {:induction false} FilterInsertBy<T(!new)>(p: T -> bool, x: T, s: seq<T>, key: T -> real)
    requires SortedBy(s, key)
    ensures Filter(p, InsertBy(x, s, key))
         == if p(x) then InsertBy(x, Filter(p, s), key) else Filter(p, s)
  {
    if s == [] {
      assert Filter(p, [x]) == (if p(x) then [x] else []) + Filter(p, []);
    } else if key(x) <= key(s[0]) {
      FilterInsertFront(p, x, s, key);
    } else {
      FilterInsertBy(p, x, s[1..], key);
      FilterInsertLater(p, x, s, key);
    }
  }

  /** The case of `FilterInsertBy` where `x` goes after the head of `s`,
      given the claim for the tail. */
  lemma FilterInsertLater<T(!new)>(p: T -> bool, x: T, s: seq<T>, key: T -> real)
    requires s != [] && key(x) > key(s[0])
    requires Filter(p, InsertBy(x, s[1..], key))
          == if p(x) then InsertBy(x, Filter(p, s[1..]), key) else Filter(p, s[1..])
    ensures Filter(p, InsertBy(x, s, key))
         == if p(x) then InsertBy(x, Filter(p, s), key) else Filter(p, s)
  {
    var a := s[0];
    var t := InsertBy(x, s[1..], key);
    var fs := Filter(p, s[1..]);
    assert InsertBy(x, s, key) == [a] + t;
    FilterCons(p, a, t);
    if p(a) {
      assert Filter(p, s) == [a] + fs;
      assert Filter(p, InsertBy(x, s, key)) == [a] + Filter(p, t);
      if p(x) {
        assert Filter(p, t) == InsertBy(x, fs, key);
        InsertByCons(x, a, fs, key);
      } else {
        assert Filter(p, t) == fs;
      }
    } else {
      assert Filter(p, s) == [] + fs == fs;
      assert Filter(p, InsertBy(x, s, key)) == Filter(p, t);
    }
  }

  /** `Filter` on a sequence with a known head. */
  lemma FilterCons<T(!new)>(p: T -> bool, a: T, u: seq<T>)
    ensures p(a) ==> Filter(p, [a] + u) == [a] + Filter(p, u)
    ensures !p(a) ==> Filter(p, [a] + u) == Filter(p, u)
  {
    assert ([a] + u)[1..] == u;
    assert [] + Filter(p, u) == Filter(p, u);
  }

  /** `InsertBy` passes over a head with a smaller key. */
  lemma InsertByCons<T>(x: T, a: T, u: seq<T>, key: T -> real)
    requires key(x) > key(a)
    ensures InsertBy(x, [a] + u, key) == [a] + InsertBy(x, u, key)
  {
    assert ([a] + u)[1..] == u;
  }

  /** The case of `FilterInsertBy` where `x` goes in front of `s`. */
  lemma FilterInsertFront<T(!new)>(p: T -> bool, x: T, s: seq<T>, key: T -> real)
    requires SortedBy(s, key)
    requires s != [] && key(x) <= key(s[0])
    ensures Filter(p, InsertBy(x, s, key))
         == if p(x) then InsertBy(x, Filter(p, s), key) else Filter(p, s)
  {
    var fs := Filter(p, s);
    assert InsertBy(x, s, key) == [x] + s;
    assert ([x] + s)[1..] == s;
    assert Filter(p, [x] + s) == (if p(x) then [x] else []) + fs;
    if p(x) && fs != [] {
      FilterMembers(p, s, fs[0]);
      assert fs[0] in s;
      var k :| 0 <= k < |s| && s[k] == fs[0];
      assert key(s[0]) <= key(s[k]);
      assert InsertBy(x, fs, key) == [x] + fs;
    }
  }

  /** A stable sort commutes with filtering: the elements kept by `p` come
      out in the order a stable sort of them alone would give. */
  lemma {:induction false} FilterSortBy<T(!new)>(p: T -> bool, s: seq<T>, key: T -> real)
    ensures Filter(p, SortBy(s, key)) == SortBy(Filter(p, s), key)
  {
    if s != [] {
      FilterSortBy(p, s[1..], key);
      var sorted := SortBy(s[1..], key);
      FilterInsertBy(p, s[0], sorted, key);
      var f := Filter(p, s[1..]);
      assert SortBy(s, key) == InsertBy(s[0], sorted, key);
      if p(s[0]) {
        assert Filter(p, s) == [s[0]] + f;
        assert ([s[0]] + f)[1..] == f;
        assert SortBy([s[0]] + f, key) == InsertBy(s[0], SortBy(f, key), key);
      } else {
        assert Filter(p, s) == f;
      }
    }
  }

  /** Sorting an already sorted sequence changes nothing. */
  lemma {:induction false} SortBySorted<T>(s: seq<T>, key: T -> real)
    requires SortedBy(s, key)
    ensures SortBy(s, key) == s
  {
    if s != [] {
      SortBySorted(s[1..], key);
      assert s == [s[0]] + s[1..];
    }
  }

  /** Stability: the elements of any class on which the key is constant
      appear in the sorted result in exactly the order they had in the input. */
  lemma SortByStable<T(!new)>(p: T -> bool, s: seq<T>, key: T -> real, k: real)
    requires forall x :: p(x) ==> key(x) == k
    ensures Filter(p, SortBy(s, key)) == Filter(p, s)
  {
    FilterSortBy(p, s, key);
    SortBySorted(Filter(p, s), key);
  }

  /** Filtering drops something exactly when some element fails `p`. */
  lemma {:induction false} FilterShorter<T(!new)>(p: T -> bool, s: seq<T>)
    ensures |Filter(p, s)| < |s| <==> exists i :: 0 <= i < |s| && !p(s[i])
  {
    if s != [] {
      FilterShorter(p, s[1..]);
      if !p(s[0]) {
        assert !p(s[0]);
      } else if exists i :: 0 <= i < |s[1..]| && !p(s[1..][i]) {
        var i :| 0 <= i < |s[1..]| && !p(s[1..][i]);
        assert !p(s[i + 1]);
      } else {
        forall i | 0 <= i < |s|
          ensures p(s[i])
        {
          if i > 0 {
            assert s[i] == s[1..][i - 1];
          }
        }
      }
    }
  }

  /** Inserting `x` whose key lies strictly above every key of `a` and at or
      below the first key of `b` places it exactly between them. */
  lemma {:induction false} InsertByBetween<T>(x: T, a: seq<T>, b: seq<T>, key: T -> real)
    requires forall i :: 0 <= i < |a| ==> key(a[i]) < key(x)
    requires b == [] || key(x) <= key(b[0])
    ensures InsertBy(x, a + b, key) == a + [x] + b
  {
    if a == [] {
      assert a + b == b;
    } else {
      assert (a + b)[1..] == a[1..] + b;
      InsertByBetween(x, a[1..], b, key);
    }
  }

  /** With a key that is 0 on the elements satisfying `p` and 1 on those
      satisfying its complement `q`, the stable sort is the stable
      partition: the `p` elements, then the `q` elements, each in input order. */
  lemma {:induction false} SortByPartition<T(!new)>(s: seq<T>, key: T -> real, p: T -> bool, q: T -> bool)
    requires forall x :: q(x) == !p(x)
    requires forall x :: key(x) == if p(x) then 0.0 else 1.0
    ensures SortBy(s, key) == Filter(p, s) + Filter(q, s)
  {
    if s != [] {
      SortByPartition(s[1..], key, p, q);
      var a := Filter(p, s[1..]);
      var b := Filter(q, s[1..]);
      if p(s[0]) {
        PartitionLow(s, key, p, q, a, b);
      } else {
        PartitionHigh(s, key, p, q, a, b);
      }
    }
  }

  /** The step of `SortByPartition` for a head satisfying `p`. */
  lemma PartitionLow<T(!new)>(s: seq<T>, key: T -> real, p: T -> bool, q: T -> bool, a: seq<T>, b: seq<T>)
    requires s != [] && p(s[0]) && !q(s[0]) && key(s[0]) == 0.0
    requires forall x :: key(x) >= 0.0
    requires a == Filter(p, s[1..]) && b == Filter(q, s[1..])
    requires SortBy(s[1..], key) == a + b
    ensures SortBy(s, key) == Filter(p, s) + Filter(q, s)
  {
    var x := s[0];
    assert SortBy(s, key) == InsertBy(x, a + b, key);
    assert Filter(p, s) == [x] + a;
    assert Filter(q, s) == b;
    assert InsertBy(x, a + b, key) == [x] + (a + b);
    ConcatAssoc([x], a, b);
  }

  /** The step of `SortByPartition` for a head not satisfying `p`. */
  lemma PartitionHigh<T(!new)>(s: seq<T>, key: T -> real, p: T -> bool, q: T -> bool, a: seq<T>, b: seq<T>)
    requires s != [] && !p(s[0]) && q(s[0]) && key(s[0]) == 1.0
    requires forall i :: 0 <= i < |a| ==> key(a[i]) == 0.0
    requires forall i :: 0 <= i < |b| ==> key(b[i]) == 1.0
    requires a == Filter(p, s[1..]) && b == Filter(q, s[1..])
    requires SortBy(s[1..], key) == a + b
    ensures SortBy(s, key) == Filter(p, s) + Filter(q, s)
  {
    var x := s[0];
    assert SortBy(s, key) == InsertBy(x, a + b, key);
    assert Filter(p, s) == a;
    assert Filter(q, s) == [x] + b;
    InsertByBetween(x, a, b, key);
    ConcatAssoc(a, [x], b);
  }

  lemma ConcatAssoc<T>(a: seq<T>, b: seq<T>, c: seq<T>)
    ensures a + (b + c) == (a + b) + c
  {
  }

  /** `a` is `b` with some elements left out, the rest in their order. */
  ghost predicate IsSubsequence<T>(a: seq<T>, b: seq<T>)
    decreases |b|
  {
    if a == [] then true
    else if b == [] then false
    else (a[0] == b[0] && IsSubsequence(a[1..], b[1..])) || IsSubsequence(a, b[1..])
  }

  /** `f` applied to every element, in order; `None` when any application
      gives `None`. */
  function MapAll<A, B>(f: A -> Option<B>, s: seq<A>): (r: Option<seq<B>>)
    ensures r.None? <==> exists i :: 0 <= i < |s| && f(s[i]).None?
    ensures r.Some? ==> |r.value| == |s| && forall i :: 0 <= i < |s| ==> f(s[i]) == Some(r.value[i])
  {
    if s == [] then Some([])
    else
      var head := f(s[0]);
      var tail := MapAll(f, s[1..]);
      assert forall i :: 1 <= i < |s| ==> s[i] == s[1..][i - 1];
      if head.None? || tail.None? then None
      else Some([head.value] + tail.value)
  }

  /** `MapAll` succeeds on a sequence when it succeeds on its head and on
      its tail. */
  lemma MapAllCons<A, B>(f: A -> Option<B>, s: seq<A>, v: seq<B>)
    requires |s| == |v| && s != []
    requires f(s[0]) == Some(v[0]) && MapAll(f, s[1..]) == Some(v[1..])
    ensures MapAll(f, s) == Some(v)
  {
    assert [v[0]] + v[1..] == v;
  }

  /** `MapAll` succeeds with `v` when `f` maps every element to the
      corresponding element of `v`. */
  lemma MapAllEach<A, B>(f: A -> Option<B>, s: seq<A>, v: seq<B>)
    requires |s| == |v|
    requires forall i :: 0 <= i < |s| ==> f(s[i]) == Some(v[i])
    ensures MapAll(f, s) == Some(v)
  {
    var r := MapAll(f, s);
    assert !exists i :: 0 <= i < |s| && f(s[i]).None?;
    assert r.value == v by {
      forall i | 0 <= i < |s|
        ensures r.value[i] == v[i]
      {
        assert f(s[i]) == Some(r.value[i]);
      }
    }
  }
}
