/** Sequence vocabulary shared by the model: order-preserving filtering,
    subsequences, first-occurrence de-duplication and index searches. */
module Seqs {
  import opened Wrappers

  /** `a` can be obtained from `b` by deleting elements (order kept). */
  predicate IsSubsequence<T(==)>(a: seq<T>, b: seq<T>)
    decreases |b|
  {
    if b == [] then a == []
    else (a != [] && a[0] == b[0] && IsSubsequence(a[1..], b[1..])) || IsSubsequence(a, b[1..])
  }

  /** Order-preserving selection, as `Array.prototype.filter` does it. */
  function Filter<T(==,!new)>(s: seq<T>, p: T -> bool): (r: seq<T>)
    ensures |r| <= |s|
  {
    if s == [] then []
    else if p(s[0]) then [s[0]] + Filter(s[1..], p)
    else Filter(s[1..], p)
  }

  /** The selection keeps exactly the elements satisfying `p`, each as often
      as it occurs, in their original order. */
  lemma {:induction false} FilterSpec<T(!new)>(s: seq<T>, p: T -> bool)
    ensures forall x :: x in Filter(s, p) <==> x in s && p(x)
    ensures forall x :: multiset(Filter(s, p))[x] == if p(x) then multiset(s)[x] else 0
    ensures IsSubsequence(Filter(s, p), s)
  {
    if s != [] {
      FilterSpec(s[1..], p);
      var rest := Filter(s[1..], p);
      assert s == [s[0]] + s[1..];
      if p(s[0]) {
        assert ([s[0]] + rest)[1..] == rest;
      }
    }
  }

  /** The membership half of `FilterSpec`, on its own. */
  lemma FilterMembers<T(!new)>(s: seq<T>, p: T -> bool)
    ensures forall x :: x in Filter(s, p) <==> x in s && p(x)
  {
    FilterSpec(s, p);
  }

  lemma {:induction false} FilterAppend<T(!new)>(a: seq<T>, b: seq<T>, p: T -> bool)
    ensures Filter(a + b, p) == Filter(a, p) + Filter(b, p)
  {
    if a == [] {
      assert a + b == b;
    } else {
      assert (a + b)[1..] == a[1..] + b;
      FilterAppend(a[1..], b, p);
    }
  }

  function Map<T, U>(s: seq<T>, f: T -> U): (r: seq<U>)
    ensures |r| == |s|
    ensures forall i | 0 <= i < |s| :: r[i] == f(s[i])
  {
    seq(|s|, i requires 0 <= i < |s| => f(s[i]))
  }

  function Flatten<T>(ss: seq<seq<T>>): seq<T>
  {
    if ss == [] then [] else Flatten(ss[..|ss| - 1]) + ss[|ss| - 1]
  }

  lemma {:induction false} FlattenMembership<T>(ss: seq<seq<T>>, x: T)
    ensures x in Flatten(ss) <==> exists i | 0 <= i < |ss| :: x in ss[i]
  {
    if ss != [] {
      var init := ss[..|ss| - 1];
      FlattenMembership(init, x);
      assert forall i | 0 <= i < |init| :: init[i] == ss[i];
    }
  }

  predicate Distinct<T(==)>(s: seq<T>)
  {
    forall i, j | 0 <= i < j < |s| :: s[i] != s[j]
  }

  /** Position of the first occurrence of `x` in `s`. */
  function IndexOf<T(==)>(s: seq<T>, x: T): (k: nat)
    requires x in s
    ensures k < |s| && s[k] == x && x !in s[..k]
  {
    var n := |s| - 1;
    if x in s[..n] then
      var k := IndexOf(s[..n], x);
      assert s[..n][..k] == s[..k];
      k
    else
      assert s == s[..n] + [s[n]];
      n
  }

  /** First occurrences of the elements of `s`, in first-occurrence order. */
  function Dedup<T(==,!new)>(s: seq<T>): (r: seq<T>)
    ensures Distinct(r)
    ensures forall x :: x in r <==> x in s
    ensures forall i, j | 0 <= i < j < |r| :: IndexOf(s, r[i]) < IndexOf(s, r[j])
  {
    if s == [] then []
    else
      var n := |s| - 1;
      var d := Dedup(s[..n]);
      assert s == s[..n] + [s[n]];
      assert forall y | y in s[..n] :: IndexOf(s, y) == IndexOf(s[..n], y) by {
        forall y | y in s[..n] ensures IndexOf(s, y) == IndexOf(s[..n], y) {
          IndexOfPrefix(s, n, y);
        }
      }
      if s[n] in s[..n] then d
      else
        assert IndexOf(s, s[n]) == n;
        d + [s[n]]
  }

  lemma IndexOfPrefix<T>(s: seq<T>, n: nat, y: T)
    requires n <= |s| && y in s[..n]
    ensures IndexOf(s, y) == IndexOf(s[..n], y)
  {
    var k := IndexOf(s[..n], y);
    var k' := IndexOf(s, y);
    assert s[..n][..k] == s[..k];
  }

  /** Index of the last element satisfying `p`, or -1 when there is none. */
  function LastIndexWhere<T>(s: seq<T>, p: T -> bool): (r: int)
    ensures -1 <= r < |s|
    ensures r == -1 <==> forall k | 0 <= k < |s| :: !p(s[k])
    ensures r >= 0 ==> p(s[r]) && forall k | r < k < |s| :: !p(s[k])
  {
    if s == [] then -1
    else if p(s[|s| - 1]) then |s| - 1
    else LastIndexWhere(s[..|s| - 1], p)
  }

  /** Index of the first element satisfying `p`, or -1 when there is none. */
  function FirstIndexWhere<T>(s: seq<T>, p: T -> bool): (r: int)
    ensures -1 <= r < |s|
    ensures r == -1 <==> forall k | 0 <= k < |s| :: !p(s[k])
    ensures r >= 0 ==> p(s[r]) && forall k | 0 <= k < r :: !p(s[k])
  {
    if s == [] then -1
    else
      var f := FirstIndexWhere(s[..|s| - 1], p);
      if f >= 0 then f
      else if p(s[|s| - 1]) then |s| - 1
      else -1
  }

  lemma EmptyIsSubsequence<T>(s: seq<T>)
    ensures IsSubsequence([], s)
  {
  }

  lemma {:induction false} SubsequenceReflexive<T>(s: seq<T>)
    ensures IsSubsequence(s, s)
  {
    if s != [] {
      SubsequenceReflexive(s[1..]);
    }
  }

  lemma {:induction false} SubsequenceTransitive<T>(a: seq<T>, b: seq<T>, c: seq<T>)
    requires IsSubsequence(a, b) && IsSubsequence(b, c)
    ensures IsSubsequence(a, c)
    decreases |c|
  {
    if c == [] {
    } else if b == [] {
      EmptyIsSubsequence(c);
    } else if b[0] == c[0] && IsSubsequence(b[1..], c[1..]) {
      if a != [] && a[0] == b[0] && IsSubsequence(a[1..], b[1..]) {
        SubsequenceTransitive(a[1..], b[1..], c[1..]);
      } else {
        SubsequenceTransitive(a, b[1..], c[1..]);
      }
    } else {
      SubsequenceTransitive(a, b, c[1..]);
    }
  }

  /** Extending a sequence by one element moves the last match only if the new element matches. */
  lemma LastIndexWhereSnoc<T>(s: seq<T>, n: nat, p: T -> bool)
    requires n < |s|
    ensures LastIndexWhere(s[..n + 1], p) == if p(s[n]) then n else LastIndexWhere(s[..n], p)
  {
    assert s[..n + 1][..n] == s[..n];
  }

  /** Extending a sequence by one element sets the first match only if there was none. */
  lemma FirstIndexWhereSnoc<T>(s: seq<T>, n: nat, p: T -> bool)
    requires n < |s|
    ensures FirstIndexWhere(s[..n + 1], p) ==
      if FirstIndexWhere(s[..n], p) >= 0 then FirstIndexWhere(s[..n], p) else if p(s[n]) then n else -1
  {
    assert s[..n + 1][..n] == s[..n];
  }

  /** The present values of `s`, in order: the absent entries leave no gap. */
  function Somes<T>(s: seq<Option<T>>): (r: seq<T>)
    ensures |r| <= |s|
  {
    if s == [] then []
    else Somes(s[..|s| - 1]) + match s[|s| - 1] case Some(v) => [v] case None => []
  }

  /** The indices of the present entries of `s`, in increasing order. */
  function SomePositions<T>(s: seq<Option<T>>): (r: seq<nat>)
    ensures forall k | 0 <= k < |r| :: r[k] < |s| && s[r[k]].Some?
    ensures forall c | 0 <= c < |s| && s[c].Some? :: c in r
    ensures forall i, j | 0 <= i < j < |r| :: r[i] < r[j]
  {
    if s == [] then []
    else
      var before := SomePositions(s[..|s| - 1]);
      if s[|s| - 1].Some? then before + [|s| - 1] else before
  }

  /** The k-th present value sits at the k-th present position. */
  lemma {:induction false} SomesAtPositions<T>(s: seq<Option<T>>)
    ensures |Somes(s)| == |SomePositions(s)|
    ensures forall k | 0 <= k < |Somes(s)| :: s[SomePositions(s)[k]] == Some(Somes(s)[k])
  {
    if s != [] {
      SomesAtPositions(s[..|s| - 1]);
    }
  }

  /** A value is present in `s` exactly when some entry holds it. */
  lemma {:induction false} SomesMembership<T>(s: seq<Option<T>>, v: T)
    ensures v in Somes(s) <==> exists c | 0 <= c < |s| :: s[c] == Some(v)
  {
    if s != [] {
      var init := s[..|s| - 1];
      SomesMembership(init, v);
      assert forall c | 0 <= c < |init| :: init[c] == s[c];
    }
  }

  /** Extending `s` by one entry extends its present values by that entry's value. */
  lemma SomesSnoc<T>(s: seq<Option<T>>, n: nat)
    requires n < |s|
    ensures Somes(s[..n + 1]) == Somes(s[..n]) + match s[n] case Some(v) => [v] case None => []
  {
    assert s[..n + 1][..n] == s[..n];
  }

  /** When entries 1..c of `s` are all present, they are the first c present positions. */
  lemma PresentPrefix<T>(s: seq<Option<T>>, c: nat)
    requires s != [] && s[0].None? && 1 <= c < |s|
    requires forall k | 1 <= k <= c :: s[k].Some?
    ensures |SomePositions(s)| >= c
    ensures forall i | 0 <= i < c :: SomePositions(s)[i] == i + 1
  {
    PrefixOfPositions(s, SomePositions(s), c);
  }

  /** `PresentPrefix` for any increasing list of exactly the present positions. */
  lemma {:induction false} PrefixOfPositions<T>(s: seq<Option<T>>, r: seq<nat>, c: nat)
    requires s != [] && s[0].None? && 1 <= c < |s|
    requires forall k | 1 <= k <= c :: s[k].Some?
    requires forall k | 0 <= k < |r| :: r[k] < |s| && s[r[k]].Some?
    requires forall k | 0 <= k < |s| && s[k].Some? :: k in r
    requires forall i, j | 0 <= i < j < |r| :: r[i] < r[j]
    ensures |r| >= c
    ensures forall i | 0 <= i < c :: r[i] == i + 1
  {
    assert c in r;
    var j :| 0 <= j < |r| && r[j] == c;
    assert forall i | 0 <= i < |r| :: r[i] >= 1;
    IncreasingFromOne(r, j);
    if c > 1 {
      PrefixOfPositions(s, r, c - 1);
      assert forall i | 0 <= i < c - 1 :: r[i] != c;
    }
    assert j == c - 1;
  }

  /** A strictly increasing sequence of positive numbers: entry k is at least
      k+1, with equality only when it starts 1, 2, ..., k+1. */
  lemma {:induction false} IncreasingFromOne(r: seq<nat>, k: nat)
    requires k < |r|
    requires forall i | 0 <= i < |r| :: r[i] >= 1
    requires forall i, j | 0 <= i < j < |r| :: r[i] < r[j]
    ensures r[k] >= k + 1
    ensures r[k] == k + 1 ==> forall i | 0 <= i <= k :: r[i] == i + 1
  {
    if k > 0 {
      IncreasingFromOne(r, k - 1);
    }
  }

  /** With entry 0 absent, the (c-1)-th present position is at least c, and
      equals c exactly when entries 1..c are all present. */
  lemma PositionAlignment<T>(s: seq<Option<T>>, c: nat)
    requires s != [] && s[0].None?
    requires 1 <= c <= |SomePositions(s)|
    ensures SomePositions(s)[c - 1] >= c
    ensures SomePositions(s)[c - 1] == c <==> forall k | 1 <= k <= c :: s[k].Some?
  {
    AlignmentOfPositions(s, SomePositions(s), c);
  }

  /** `PositionAlignment` for any increasing list of exactly the present positions. */
  lemma AlignmentOfPositions<T>(s: seq<Option<T>>, r: seq<nat>, c: nat)
    requires s != [] && s[0].None? && 1 <= c <= |r|
    requires forall k | 0 <= k < |r| :: r[k] < |s| && s[r[k]].Some?
    requires forall k | 0 <= k < |s| && s[k].Some? :: k in r
    requires forall i, j | 0 <= i < j < |r| :: r[i] < r[j]
    ensures r[c - 1] >= c
    ensures r[c - 1] == c <==> forall k | 1 <= k <= c :: s[k].Some?
  {
    assert forall i | 0 <= i < |r| :: r[i] >= 1;
    IncreasingFromOne(r, c - 1);
    if forall k | 1 <= k <= c :: s[k].Some? {
      if c < |s| {
        PrefixOfPositions(s, r, c);
      }
    }
    if r[c - 1] == c {
      forall k | 1 <= k <= c
        ensures s[k].Some?
      {
        assert r[k - 1] == k;
      }
    }
  }

  /** With entry 0 absent and every later entry present, entry c holds the
      (c-1)-th present value. */
  lemma NoGapSomes<T>(s: seq<Option<T>>)
    requires s != [] && s[0].None?
    requires forall k | 1 <= k < |s| :: s[k].Some?
    ensures |Somes(s)| == |s| - 1
    ensures forall c | 1 <= c < |s| :: s[c] == Some(Somes(s)[c - 1])
  {
    SomesAtPositions(s);
    if |s| >= 2 {
      PresentPrefix(s, |s| - 1);
    } else {
      assert s[..0] == [];
    }
    forall c | 1 <= c < |s|
      ensures s[c] == Some(Somes(s)[c - 1])
    {
      PositionAlignment(s, c);
    }
  }

  lemma DistinctCons<K>(x: K, d: seq<K>)
    requires x !in d && Distinct(d)
    ensures Distinct([x] + d)
  {
    var r := [x] + d;
    forall i, j | 0 <= i < j < |r|
      ensures r[i] != r[j]
    {
      assert r[j] == d[j - 1];
      if i > 0 {
        assert r[i] == d[i - 1];
      }
    }
  }

  lemma DistinctHead<K>(d: seq<K>)
    requires d != [] && Distinct(d)
    ensures d[0] !in d[1..]
  {
    forall j | 0 <= j < |d[1..]|
      ensures d[1..][j] != d[0]
    {
      assert d[1..][j] == d[j + 1];
    }
  }

  lemma MapMembers<T, K>(s: seq<T>, key: T -> K)
    ensures forall x | x in s :: key(x) in Map(s, key)
  {
    forall x | x in s
      ensures key(x) in Map(s, key)
    {
      var j :| 0 <= j < |s| && s[j] == x;
      assert Map(s, key)[j] == key(x);
    }
  }

  /** Keeping a selection of rows keeps any key that was unique unique. */
  lemma {:induction false} FilterDistinct<T(!new), K(!new)>(s: seq<T>, p: T -> bool, key: T -> K)
    requires Distinct(Map(s, key))
    ensures Distinct(Map(Filter(s, p), key))
  {
    if s != [] {
      var rest := Filter(s[1..], p);
      var ks := Map(s, key);
      assert Map(s[1..], key) == ks[1..];
      DistinctTail(ks);
      FilterDistinct(s[1..], p, key);
      if p(s[0]) {
        FilterDistinctKept(s, p, key);
      } else {
        assert Filter(s, p) == rest;
      }
    }
  }

  /** The step of `FilterDistinct` where the first element is kept. */
  lemma FilterDistinctKept<T(!new), K(!new)>(s: seq<T>, p: T -> bool, key: T -> K)
    requires s != [] && p(s[0]) && Distinct(Map(s, key))
    requires Distinct(Map(Filter(s[1..], p), key))
    ensures Distinct(Map(Filter(s, p), key))
  {
    var rest := Filter(s[1..], p);
    assert key(s[0]) !in Map(rest, key) by {
      var ks := Map(s, key);
      assert Map(s[1..], key) == ks[1..];
      DistinctHead(ks);
      FilterKeys(s[1..], p, key, key(s[0]));
      MapMembers(s[1..], key);
    }
    DistinctCons(key(s[0]), Map(rest, key));
    assert Map(Filter(s, p), key) == [key(s[0])] + Map(rest, key) by {
      assert Filter(s, p) == [s[0]] + rest;
    }
  }

  lemma DistinctTail<K>(d: seq<K>)
    requires d != [] && Distinct(d)
    ensures Distinct(d[1..])
  {
    forall i, j | 0 <= i < j < |d| - 1
      ensures d[1..][i] != d[1..][j]
    {
      assert d[1..][i] == d[i + 1] && d[1..][j] == d[j + 1];
    }
  }

  /** A key of the kept rows is the key of a row that was there. */
  lemma FilterKeys<T(!new), K>(s: seq<T>, p: T -> bool, key: T -> K, k: K)
    ensures k in Map(Filter(s, p), key) <==> exists x | x in s && p(x) :: key(x) == k
  {
    FilterSpec(s, p);
    var f := Filter(s, p);
    if k in Map(f, key) {
      var i :| 0 <= i < |f| && Map(f, key)[i] == k;
      assert f[i] in f;
    }
    if exists x | x in s && p(x) :: key(x) == k {
      var x :| x in s && p(x) && key(x) == k;
      assert x in f;
      var i :| 0 <= i < |f| && f[i] == x;
      assert Map(f, key)[i] == k;
    }
  }

  lemma {:induction false} FilterNone<T(!new)>(s: seq<T>, p: T -> bool)
    requires forall x | x in s :: !p(x)
    ensures Filter(s, p) == []
  {
    if s != [] {
      assert s[0] in s;
      FilterNone(s[1..], p);
    }
  }

  /** Two filters whose tests agree everywhere select the same elements. */
  lemma {:induction false} FilterSameTest<T(!new)>(s: seq<T>, p: T -> bool, q: T -> bool)
    requires forall x :: p(x) == q(x)
    ensures Filter(s, p) == Filter(s, q)
  {
    if s != [] {
      FilterSameTest(s[1..], p, q);
    }
  }
}
