/** Sequence helpers shared by the roster model: filtering, first-seen
    de-duplication, sums and a stable insertion sort under a total preorder. */
module Seqs {
  import opened Wrappers

  /** The elements of `s` satisfying `p`, in their original order. */
  function Filter<T(!new)>(s: seq<T>, p: T -> bool): (r: seq<T>)
    ensures |r| <= |s|
    ensures forall x :: x in r <==> x in s && p(x)
    ensures multiset(r) <= multiset(s)
    decreases |s|
  {
    if s == [] then []
    else
      var init := Filter(s[..|s| - 1], p);
      assert s == s[..|s| - 1] + [s[|s| - 1]];
      if p(s[|s| - 1]) then init + [s[|s| - 1]] else init
  }

  /** What a prefix of `a` says about `a`'s own shorter prefixes and elements. */
  lemma PrefixAt<T>(a: seq<T>, b: seq<T>, n: nat)
    requires |b| <= |a| && a[..|b|] == b && n <= |b|
    ensures a[..n] == b[..n]
    ensures n < |b| ==> a[n] == b[n]
  {
    assert a[..n] == a[..|b|][..n];
    if n < |b| {
      assert a[n] == a[..|b|][n];
    }
  }

  function Not<T>(p: T -> bool): T -> bool {
    x => !p(x)
  }

  lemma FilterSnoc<T(!new)>(s: seq<T>, x: T, p: T -> bool)
    ensures Filter(s + [x], p) == Filter(s, p) + (if p(x) then [x] else [])
  {
    assert (s + [x])[..|s|] == s;
  }

  lemma {:induction false} FilterAppend<T(!new)>(a: seq<T>, b: seq<T>, p: T -> bool)
    ensures Filter(a + b, p) == Filter(a, p) + Filter(b, p)
    decreases |b|
  {
    if b == [] {
      assert a + b == a;
    } else {
      var b' := b[..|b| - 1];
      var x := b[|b| - 1];
      assert b == b' + [x];
      assert a + b == (a + b') + [x];
      var t := if p(x) then [x] else [];
      calc {
        Filter(a + b, p);
        { FilterSnoc(a + b', x, p); }
        Filter(a + b', p) + t;
        { FilterAppend(a, b', p); }
        (Filter(a, p) + Filter(b', p)) + t;
        Filter(a, p) + (Filter(b', p) + t);
        { FilterSnoc(b', x, p); }
        Filter(a, p) + Filter(b, p);
      }
    }
  }

  /** Filtering by `p` and by its negation splits `s` into two parts that
      together hold every element exactly as often as `s` does. */
  lemma {:induction false} FilterPartition<T(!new)>(s: seq<T>, p: T -> bool)
    ensures multiset(Filter(s, p)) + multiset(Filter(s, Not(p))) == multiset(s)
    decreases |s|
  {
    if s != [] {
      var s' := s[..|s| - 1];
      var x := s[|s| - 1];
      assert s == s' + [x];
      FilterPartition(s', p);
      FilterSnoc(s', x, p);
      FilterSnoc(s', x, Not(p));
    }
  }

  /** Dropping every element that satisfies `p` and keeping the first of
      them never adds an element. */
  lemma FilterHeadShrinks<T(!new)>(s: seq<T>, p: T -> bool)
    requires Filter(s, p) != []
    ensures multiset(Filter(s, Not(p))) + multiset{Filter(s, p)[0]} <= multiset(s)
  {
    var c := Filter(s, p);
    assert c == [c[0]] + c[1..];
    FilterPartition(s, p);
  }

  /** When exactly one element satisfies `p`, dropping it and keeping it
      separately loses nothing. */
  lemma FilterSingle<T(!new)>(s: seq<T>, p: T -> bool)
    requires |Filter(s, p)| == 1
    ensures multiset(Filter(s, Not(p))) + multiset{Filter(s, p)[0]} == multiset(s)
  {
    var c := Filter(s, p);
    assert c == [c[0]];
    FilterPartition(s, p);
  }

  /** Filtering keeps the relative order of the elements it keeps. */
  lemma {:induction false} FilterSorted<T(!new)>(s: seq<T>, p: T -> bool, le: (T, T) -> bool)
    requires SortedBy(s, le)
    ensures SortedBy(Filter(s, p), le)
    decreases |s|
  {
    if s != [] {
      var s' := s[..|s| - 1];
      var x := s[|s| - 1];
      assert s == s' + [x];
      assert SortedBy(s', le);
      FilterSorted(s', p, le);
      FilterSnoc(s', x, p);
      var r := Filter(s, p);
      forall i, j | 0 <= i < j < |r| ensures le(r[i], r[j]) {
        if j == |r| - 1 && p(x) {
          assert r[i] in s';
          var k :| 0 <= k < |s'| && s'[k] == r[i];
          assert s[k] == r[i] && s[|s| - 1] == x;
        }
      }
    }
  }

  /** Two predicates that never hold together select disjoint parts of `s`. */
  lemma {:induction false} FilterDisjoint<T(!new)>(s: seq<T>, p: T -> bool, q: T -> bool)
    requires forall x :: !(p(x) && q(x))
    ensures multiset(Filter(s, p)) + multiset(Filter(s, q)) <= multiset(s)
    decreases |s|
  {
    if s != [] {
      var s' := s[..|s| - 1];
      var x := s[|s| - 1];
      assert s == s' + [x];
      FilterDisjoint(s', p, q);
      FilterSnoc(s', x, p);
      FilterSnoc(s', x, q);
    }
  }

  lemma MultisetCancel<T>(m1: multiset<T>, m2: multiset<T>, x: T)
    requires m1 + multiset{x} == m2 + multiset{x}
    ensures m1 == m2
  {
    forall y ensures m1[y] == m2[y] {
      assert (m1 + multiset{x})[y] == (m2 + multiset{x})[y];
    }
  }

  /** Filtering keeps every occurrence of an element satisfying `p` and
      none of the others. */
  lemma {:induction false} FilterCount<T(!new)>(s: seq<T>, p: T -> bool, y: T)
    ensures multiset(Filter(s, p))[y] == if p(y) then multiset(s)[y] else 0
    decreases |s|
  {
    if s != [] {
      var s' := s[..|s| - 1];
      var x := s[|s| - 1];
      assert s == s' + [x];
      FilterCount(s', p, y);
      FilterSnoc(s', x, p);
    }
  }

  lemma MultisetSwap<T>(a: seq<T>, b: seq<T>)
    ensures multiset(a + b) == multiset(b + a)
  {
    calc {
      multiset(a + b);
      multiset(a) + multiset(b);
      multiset(b) + multiset(a);
      multiset(b + a);
    }
  }

  /** Filtering depends only on which elements occur and how often. */
  lemma FilterMultiset<T(!new)>(a: seq<T>, b: seq<T>, p: T -> bool)
    requires multiset(a) == multiset(b)
    ensures multiset(Filter(a, p)) == multiset(Filter(b, p))
  {
    forall y ensures multiset(Filter(a, p))[y] == multiset(Filter(b, p))[y] {
      FilterCount(a, p, y);
      FilterCount(b, p, y);
    }
  }

  /** Position of the first element satisfying `p`, if any. */
  function FirstMatch<T>(s: seq<T>, p: T -> bool): (r: Option<nat>)
    ensures r.None? <==> forall i :: 0 <= i < |s| ==> !p(s[i])
    ensures r.Some? ==> r.value < |s| && p(s[r.value])
    ensures r.Some? ==> forall j :: 0 <= j < r.value ==> !p(s[j])
  {
    if s == [] then None
    else if p(s[0]) then Some(0)
    else
      var rest := FirstMatch(s[1..], p);
      assert forall k :: 1 <= k < |s| ==> s[k] == s[1..][k - 1];
      match rest
      case None => None
      case Some(i) => Some(i + 1)
  }

  predicate NoDup<T(==)>(s: seq<T>) {
    forall i, j :: 0 <= i < j < |s| ==> s[i] != s[j]
  }

  /** The distinct elements of `s`, each kept where it first occurs. */
  function Distinct<T(==,!new)>(s: seq<T>): (r: seq<T>)
    ensures forall x :: x in r <==> x in s
    ensures NoDup(r)
    decreases |s|
  {
    if s == [] then []
    else
      var init := Distinct(s[..|s| - 1]);
      var x := s[|s| - 1];
      assert s == s[..|s| - 1] + [x];
      if x in init then init else init + [x]
  }

  /** One more element adds itself to the distinct elements unless already there. */
  lemma DistinctStep<T(!new)>(s: seq<T>, i: nat)
    requires i < |s|
    ensures Distinct(s[..i + 1]) == if s[i] in Distinct(s[..i]) then Distinct(s[..i]) else Distinct(s[..i]) + [s[i]]
  {
    assert s[..i + 1][..i] == s[..i];
  }

  /** Index of the first occurrence of `x` in `s`. */
  function FirstIndex<T(==)>(s: seq<T>, x: T): (i: nat)
    requires x in s
    ensures i < |s| && s[i] == x && x !in s[..i]
  {
    if s[0] == x then 0 else 1 + FirstIndex(s[1..], x)
  }

  lemma {:induction false} FirstIndexSnoc<T>(s: seq<T>, y: T, x: T)
    requires x in s
    ensures FirstIndex(s + [y], x) == FirstIndex(s, x)
  {
    if s[0] != x {
      assert (s + [y])[1..] == s[1..] + [y];
      FirstIndexSnoc(s[1..], y, x);
    }
  }

  /** De-duplication keeps first-seen order: an element listed earlier in
      `Distinct(s)` first occurs earlier in `s`. */
  lemma {:induction false} DistinctFirstSeenOrder<T(!new)>(s: seq<T>)
    ensures forall i, j :: 0 <= i < j < |Distinct(s)| ==>
      FirstIndex(s, Distinct(s)[i]) < FirstIndex(s, Distinct(s)[j])
    decreases |s|
  {
    if s != [] {
      var s' := s[..|s| - 1];
      var x := s[|s| - 1];
      assert s == s' + [x];
      var d' := Distinct(s');
      DistinctFirstSeenOrder(s');
      forall y | y in s' ensures FirstIndex(s, y) == FirstIndex(s', y) && FirstIndex(s', y) < |s'| {
        FirstIndexSnoc(s', x, y);
      }
      if x !in d' {
        assert x !in s';
        assert FirstIndex(s, x) == |s'| by {
          assert s[|s'|] == x;
          assert x !in s[..|s'|];
        }
      }
    }
  }

  function Sum(s: seq<int>): int
    decreases |s|
  {
    if s == [] then 0 else Sum(s[..|s| - 1]) + s[|s| - 1]
  }

  lemma {:induction false} SumAppend(a: seq<int>, b: seq<int>)
    ensures Sum(a + b) == Sum(a) + Sum(b)
    decreases |b|
  {
    if b == [] {
      assert a + b == a;
    } else {
      assert a + b == (a + b[..|b| - 1]) + [b[|b| - 1]];
      SumAppend(a, b[..|b| - 1]);
    }
  }

  function Max(s: seq<int>): (m: int)
    requires s != []
    decreases |s|
  {
    if |s| == 1 then s[0]
    else
      var m' := Max(s[..|s| - 1]);
      if s[|s| - 1] > m' then s[|s| - 1] else m'
  }

  lemma {:induction false} MaxIsGreatest(s: seq<int>)
    requires s != []
    ensures Max(s) in s && forall x :: x in s ==> x <= Max(s)
    decreases |s|
  {
    if |s| > 1 {
      var s' := s[..|s| - 1];
      assert s == s' + [s[|s| - 1]];
      MaxIsGreatest(s');
    }
  }

  /** `f` applied to every element of `s`, in order. */
  function Map<T, U>(s: seq<T>, f: T -> U): (r: seq<U>)
    ensures |r| == |s| && forall i :: 0 <= i < |s| ==> r[i] == f(s[i])
  {
    seq(|s|, i requires 0 <= i < |s| => f(s[i]))
  }

  lemma MapAppend<T, U>(a: seq<T>, b: seq<T>, f: T -> U)
    ensures Map(a + b, f) == Map(a, f) + Map(b, f)
  {
    assert forall i :: 0 <= i < |a + b| ==> Map(a + b, f)[i] == (Map(a, f) + Map(b, f))[i];
  }

  /** Removing one occurrence of `x` from two sequences with the same
      elements leaves two sequences with the same elements. */
  lemma RemoveOne<T>(a: seq<T>, b: seq<T>, j: nat)
    requires |a| > 0 && j < |b| && b[j] == a[|a| - 1]
    requires multiset(a) == multiset(b)
    ensures multiset(a[..|a| - 1]) == multiset(b[..j] + b[j + 1..])
  {
    var x := a[|a| - 1];
    assert a == a[..|a| - 1] + [x];
    assert b == b[..j] + [x] + b[j + 1..];
    assert multiset(b) == multiset(b[..j] + b[j + 1..]) + multiset{x};
    MultisetCancel(multiset(a[..|a| - 1]), multiset(b[..j] + b[j + 1..]), x);
  }

  /** Mapping keeps permutations: rearranged inputs give rearranged outputs. */
  lemma {:induction false} MapPermutation<T, U>(a: seq<T>, b: seq<T>, f: T -> U)
    requires multiset(a) == multiset(b)
    ensures multiset(Map(a, f)) == multiset(Map(b, f))
    decreases |a|
  {
    if a == [] {
      assert |b| == |multiset(b)| == 0;
    } else {
      var x := a[|a| - 1];
      assert x in multiset(b);
      var j :| 0 <= j < |b| && b[j] == x;
      RemoveOne(a, b, j);
      MapPermutation(a[..|a| - 1], b[..j] + b[j + 1..], f);
      MapRemove(a, |a| - 1, f);
      assert a[..|a| - 1] + a[|a|..] == a[..|a| - 1];
      MapRemove(b, j, f);
    }
  }

  /** Mapping after removing the element at `j` removes its image. */
  lemma MapRemove<T, U>(s: seq<T>, j: nat, f: T -> U)
    requires j < |s|
    ensures multiset(Map(s, f)) == multiset(Map(s[..j] + s[j + 1..], f)) + multiset{f(s[j])}
  {
    var (l, r) := (s[..j], s[j + 1..]);
    assert s == l + [s[j]] + r;
    MapAppend(l + [s[j]], r, f);
    MapAppend(l, [s[j]], f);
    MapAppend(l, r, f);
    assert Map([s[j]], f) == [f(s[j])];
  }

  /** A sum does not depend on the order of its terms. */
  lemma {:induction false} SumPermutation(a: seq<int>, b: seq<int>)
    requires multiset(a) == multiset(b)
    ensures Sum(a) == Sum(b)
    decreases |a|
  {
    if a == [] {
      assert |b| == |multiset(b)| == 0;
    } else {
      var x := a[|a| - 1];
      var a' := a[..|a| - 1];
      assert x in multiset(b);
      var j :| 0 <= j < |b| && b[j] == x;
      var b' := b[..j] + b[j + 1..];
      RemoveOne(a, b, j);
      SumPermutation(a', b');
      assert b == b[..j] + [x] + b[j + 1..];
      SumAppend(b[..j] + [x], b[j + 1..]);
      SumAppend(b[..j], [x]);
      SumAppend(b[..j], b[j + 1..]);
      assert Sum([x]) == x by { assert [x][..0] == []; }
    }
  }

  /** `sep.join(parts)`. */
  function Join(sep: string, parts: seq<string>): (r: string)
    decreases |parts|
  {
    if parts == [] then ""
    else if |parts| == 1 then parts[0]
    else Join(sep, parts[..|parts| - 1]) + sep + parts[|parts| - 1]
  }

  /** `t` appears in `s` starting at index `i`. */
  predicate OccursAt(t: string, s: string, i: int) {
    0 <= i <= |s| - |t| && s[i..i + |t|] == t
  }

  ghost predicate Occurs(t: string, s: string) {
    exists i :: OccursAt(t, s, i)
  }

  lemma OccursIn(t: string, a: string, b: string)
    requires Occurs(t, b)
    ensures Occurs(t, a + b) && Occurs(t, b + a)
  {
    var i :| OccursAt(t, b, i);
    assert (a + b)[|a| + i..|a| + i + |t|] == t;
    assert OccursAt(t, a + b, |a| + i);
    assert (b + a)[i..i + |t|] == t;
    assert OccursAt(t, b + a, i);
  }

  lemma OccursSelf(t: string)
    ensures Occurs(t, t)
  {
    assert t[0..|t|] == t;
    assert OccursAt(t, t, 0);
  }

  /** Every part appears in the joined text. */
  lemma {:induction false} JoinMentions(sep: string, parts: seq<string>, k: nat)
    requires k < |parts|
    ensures Occurs(parts[k], Join(sep, parts))
    decreases |parts|
  {
    var n := |parts| - 1;
    if n == 0 {
      OccursSelf(parts[k]);
    } else if k == n {
      OccursSelf(parts[k]);
      OccursIn(parts[k], Join(sep, parts[..n]) + sep, parts[k]);
    } else {
      JoinMentions(sep, parts[..n], k);
      OccursIn(parts[k], sep + parts[n], Join(sep, parts[..n]));
      assert Join(sep, parts[..n]) + sep + parts[n] == Join(sep, parts[..n]) + (sep + parts[n]);
    }
  }

  /** `le` is total and transitive: a ranking in which ties are allowed. */
  ghost predicate TotalPreorder<T(!new)>(le: (T, T) -> bool) {
    (forall a, b :: le(a, b) || le(b, a)) &&
    (forall a, b, c :: le(a, b) && le(b, c) ==> le(a, c))
  }

  predicate SortedBy<T>(s: seq<T>, le: (T, T) -> bool) {
    forall i, j :: 0 <= i < j < |s| ==> le(s[i], s[j])
  }

  /** Inserts `x` before the first element it ranks no lower than. */
  function InsertBy<T>(x: T, s: seq<T>, le: (T, T) -> bool): (r: seq<T>)
    ensures multiset(r) == multiset(s) + multiset{x}
    ensures |r| == |s| + 1 && forall i :: 0 <= i < |r| ==> r[i] == x || r[i] in s
  {
    if s == [] then [x]
    else if le(x, s[0]) then [x] + s
    else
      assert s == [s[0]] + s[1..];
      [s[0]] + InsertBy(x, s[1..], le)
  }

  lemma {:induction false} InsertBySorted<T(!new)>(x: T, s: seq<T>, le: (T, T) -> bool)
    requires TotalPreorder(le) && SortedBy(s, le)
    ensures SortedBy(InsertBy(x, s, le), le)
  {
    if s != [] && !le(x, s[0]) {
      var rest := InsertBy(x, s[1..], le);
      InsertBySorted(x, s[1..], le);
      forall i | 0 <= i < |rest| ensures le(s[0], rest[i]) {
        if rest[i] != x {
          var k :| 0 <= k < |s[1..]| && s[1..][k] == rest[i];
          assert s[k + 1] == rest[i];
        }
      }
      ConsSorted(s[0], rest, le);
      assert s == [s[0]] + s[1..];
    }
  }

  /** A head ranked no lower than every element of a sorted tail keeps the
      whole sorted. */
  lemma ConsSorted<T>(h: T, s: seq<T>, le: (T, T) -> bool)
    requires SortedBy(s, le) && forall i :: 0 <= i < |s| ==> le(h, s[i])
    ensures SortedBy([h] + s, le)
  {
    var r := [h] + s;
    forall i, j | 0 <= i < j < |r| ensures le(r[i], r[j]) {
      assert r[j] == s[j - 1];
      if i > 0 {
        assert r[i] == s[i - 1];
      }
    }
  }

  /** A stable insertion sort: sorted under `le` and a permutation of `s`. */
  function SortBy<T(!new)>(s: seq<T>, le: (T, T) -> bool): (r: seq<T>)
    requires TotalPreorder(le)
    ensures SortedBy(r, le)
    ensures multiset(r) == multiset(s)
  {
    if s == [] then []
    else
      assert s == [s[0]] + s[1..];
      var sorted := SortBy(s[1..], le);
      InsertBySorted(s[0], sorted, le);
      InsertBy(s[0], sorted, le)
  }

  /** Under an order with no ties between distinct values, there is only
      one sorted arrangement of a given multiset. */
  lemma {:induction false} SortedUnique<T(!new)>(a: seq<T>, b: seq<T>, le: (T, T) -> bool)
    requires TotalPreorder(le)
    requires forall x, y :: le(x, y) && le(y, x) ==> x == y
    requires SortedBy(a, le) && SortedBy(b, le)
    requires multiset(a) == multiset(b)
    ensures a == b
    decreases |a|
  {
    assert |b| == |a| by { assert |multiset(a)| == |multiset(b)|; }
    if a != [] {
      var a0, b0 := a[0], b[0];
      assert a == [a0] + a[1..] && b == [b0] + b[1..];
      assert le(a0, b0) by {
        assert b0 in multiset(a);
        var k :| 0 <= k < |a| && a[k] == b0;
        assert k == 0 || le(a[0], a[k]);
      }
      assert le(b0, a0) by {
        assert a0 in multiset(b);
        var k :| 0 <= k < |b| && b[k] == a0;
        assert k == 0 || le(b[0], b[k]);
      }
      assert a0 == b0;
      assert multiset(a[1..]) == multiset(b[1..]) by {
        assert multiset(a) == multiset(a[1..]) + multiset{a0};
        assert multiset(b) == multiset(b[1..]) + multiset{a0};
        MultisetCancel(multiset(a[1..]), multiset(b[1..]), a0);
      }
      assert SortedBy(a[1..], le) && SortedBy(b[1..], le) by {
        forall i, j | 0 <= i < j < |a| - 1 ensures le(a[1..][i], a[1..][j]) {
          assert a[1..][i] == a[i + 1] && a[1..][j] == a[j + 1];
        }
        forall i, j | 0 <= i < j < |b| - 1 ensures le(b[1..][i], b[1..][j]) {
          assert b[1..][i] == b[i + 1] && b[1..][j] == b[j + 1];
        }
      }
      SortedUnique(a[1..], b[1..], le);
    }
  }
}
