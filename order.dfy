/** The order java.lang.String.compareTo defines, the sorted sequence of a
    finite set of strings (the iteration order of a TreeMap key set), and a
    stable sort by a string key (Collections.sort with a key comparator). */
module Order {

  /** a.compareTo(b) < 0: the first differing character decides, and a
      proper prefix comes first. */
  predicate Less(a: string, b: string)
    decreases |a|
  {
    if |a| == 0 then |b| > 0
    else if |b| == 0 then false
    else if a[0] != b[0] then a[0] < b[0]
    else Less(a[1..], b[1..])
  }

  lemma {:induction false} LessIrreflexive(a: string)
    ensures !Less(a, a)
    decreases |a|
  {
    if |a| > 0 { LessIrreflexive(a[1..]); }
  }

  lemma {:induction false} LessTransitive(a: string, b: string, c: string)
    requires Less(a, b) && Less(b, c)
    ensures Less(a, c)
    decreases |a|
  {
    if |a| > 0 && |b| > 0 && |c| > 0 && a[0] == b[0] && b[0] == c[0] {
      LessTransitive(a[1..], b[1..], c[1..]);
    }
  }

  lemma {:induction false} LessTotal(a: string, b: string)
    ensures a == b || Less(a, b) || Less(b, a)
    decreases |a|
  {
    if |a| > 0 && |b| > 0 && a[0] == b[0] {
      LessTotal(a[1..], b[1..]);
      if a[1..] == b[1..] {
        assert a == [a[0]] + a[1..] && b == [b[0]] + b[1..];
      }
    }
  }

  lemma LessAsymmetric(a: string, b: string)
    requires Less(a, b)
    ensures !Less(b, a)
  {
    if Less(b, a) {
      LessTransitive(a, b, a);
      LessIrreflexive(a);
    }
  }

  /** Not after: compareTo(a, b) <= 0. */
  predicate AtMost(a: string, b: string) { !Less(b, a) }

  lemma AtMostTransitive(a: string, b: string, c: string)
    requires AtMost(a, b) && AtMost(b, c)
    ensures AtMost(a, c)
  {
    LessTotal(a, b);
    LessTotal(b, c);
    if Less(c, a) {
      if a == b {
      } else if b == c {
      } else {
        LessTransitive(b, c, a);
      }
    }
  }

  predicate StrictlySorted(s: seq<string>)
  {
    forall i, j :: 0 <= i < j < |s| ==> Less(s[i], s[j])
  }

  /** There is always a first string in a non-empty finite set. */
  lemma {:induction false} SmallestExists(S: set<string>)
    requires S != {}
    ensures exists m :: m in S && forall x :: x in S ==> AtMost(m, x)
    decreases |S|
  {
    var y :| y in S;
    if S == {y} {
      LessIrreflexive(y);
      assert forall x :: x in S ==> x == y;
    } else {
      SmallestExists(S - {y});
      var m :| m in S - {y} && forall x :: x in S - {y} ==> AtMost(m, x);
      LessTotal(m, y);
      if Less(y, m) {
        forall x | x in S ensures AtMost(y, x) {
          if x == y {
            LessIrreflexive(y);
          } else if Less(x, y) {
            assert x in S - {y};
            LessTransitive(x, y, m);
          }
        }
      } else {
        assert forall x :: x in S ==> AtMost(m, x);
      }
    }
  }

  ghost function Smallest(S: set<string>): (m: string)
    requires S != {}
    ensures m in S && forall x :: x in S ==> AtMost(m, x)
  {
    SmallestExists(S);
    var m :| m in S && forall x :: x in S ==> AtMost(m, x);
    m
  }

  /** The strings of S in increasing order, each once. */
  ghost function SortedSeq(S: set<string>): seq<string>
    decreases |S|
  {
    if S == {} then []
    else
      var m := Smallest(S);
      [m] + SortedSeq(S - {m})
  }

  lemma {:induction false} SortedSeqSpec(S: set<string>)
    ensures StrictlySorted(SortedSeq(S)) && |SortedSeq(S)| == |S|
    ensures forall x :: x in SortedSeq(S) <==> x in S
    decreases |S|
  {
    if S != {} {
      var m := Smallest(S);
      var rest := SortedSeq(S - {m});
      SortedSeqSpec(S - {m});
      forall x | x in rest ensures Less(m, x) {
        LessTotal(m, x);
      }
    }
  }

  lemma SortedDistinct(a: seq<string>, i: int, j: int)
    requires StrictlySorted(a) && 0 <= i < j < |a|
    ensures a[i] != a[j]
  {
    LessIrreflexive(a[i]);
  }

  lemma FirstIsLeast(a: seq<string>, x: string)
    requires StrictlySorted(a) && x in a && x != a[0]
    ensures Less(a[0], x)
  {
  }

  /** A strictly sorted sequence is determined by its elements. */
  lemma {:induction false} SortedUnique(a: seq<string>, b: seq<string>)
    requires StrictlySorted(a) && StrictlySorted(b)
    requires forall x :: x in a <==> x in b
    ensures a == b
    decreases |a|
  {
    if a != [] { assert a[0] in b; }
    if b != [] { assert b[0] in a; }
    if a != [] && b != [] {
      if a[0] != b[0] {
        FirstIsLeast(a, b[0]);
        FirstIsLeast(b, a[0]);
        LessAsymmetric(a[0], b[0]);
      }
      forall x ensures x in a[1..] <==> x in b[1..] {
        if x in a[1..] {
          var i :| 1 <= i < |a| && a[i] == x;
          assert Less(a[0], x);
          LessIrreflexive(x);
          assert x in b;
          var k :| 0 <= k < |b| && b[k] == x;
          assert k != 0;
          assert b[1..][k - 1] == x;
        }
        if x in b[1..] {
          var i :| 1 <= i < |b| && b[i] == x;
          assert Less(b[0], x);
          LessIrreflexive(x);
          assert x in a;
          var k :| 0 <= k < |a| && a[k] == x;
          assert k != 0;
          assert a[1..][k - 1] == x;
        }
      }
      SortedUnique(a[1..], b[1..]);
      assert a == [a[0]] + a[1..] && b == [b[0]] + b[1..];
    }
  }

  lemma SortedSeqOf(a: seq<string>, S: set<string>)
    requires StrictlySorted(a) && forall x :: x in a <==> x in S
    ensures a == SortedSeq(S)
  {
    SortedSeqSpec(S);
    SortedUnique(a, SortedSeq(S));
  }

  /** Ordered by key, ties allowed. */
  ghost predicate SortedBy<T>(s: seq<T>, key: T -> string)
  {
    forall i, j :: 0 <= i < j < |s| ==> AtMost(key(s[i]), key(s[j]))
  }

  lemma SortedByAround<T>(p: seq<T>, x: T, q: seq<T>, key: T -> string)
    requires SortedBy(p, key) && SortedBy(q, key)
    requires forall k :: 0 <= k < |p| ==> AtMost(key(p[k]), key(x))
    requires forall k :: 0 <= k < |q| ==> AtMost(key(x), key(q[k]))
    ensures SortedBy(p + [x] + q, key)
  {
    var r := p + [x] + q;
    forall a, b | 0 <= a < b < |r| ensures AtMost(key(r[a]), key(r[b])) {
      if a < |p| && b > |p| {
        assert r[a] == p[a] && r[b] == q[b - |p| - 1];
        AtMostTransitive(key(p[a]), key(x), key(q[b - |p| - 1]));
      } else if b < |p| {
        assert r[a] == p[a] && r[b] == p[b];
      } else if a > |p| {
        assert r[a] == q[a - |p| - 1] && r[b] == q[b - |p| - 1];
      }
    }
  }

  /** Inserts x after every element whose key is not after x's, so that equal
      keys keep their order. */
  method InsertByKey<T>(s: seq<T>, x: T, key: T -> string) returns (r: seq<T>)
    requires SortedBy(s, key)
    ensures SortedBy(r, key)
    ensures multiset(r) == multiset(s) + multiset{x}
  {
    var j := |s|;
    while j > 0 && Less(key(x), key(s[j - 1]))
      invariant 0 <= j <= |s|
      invariant forall k :: j <= k < |s| ==> Less(key(x), key(s[k]))
    {
      j := j - 1;
    }
    var p, q := s[..j], s[j..];
    assert s == p + q;
    forall k | 0 <= k < |p| ensures AtMost(key(p[k]), key(x)) {
      if k < j - 1 {
        AtMostTransitive(key(s[k]), key(s[j - 1]), key(x));
      }
    }
    forall k | 0 <= k < |q| ensures AtMost(key(x), key(q[k])) {
      LessAsymmetric(key(x), key(s[j + k]));
    }
    SortedByAround(p, x, q, key);
    r := p + [x] + q;
  }

  /** Insertion sort by key; like Collections.sort it is stable. */
  method SortByKey<T>(xs: seq<T>, key: T -> string) returns (ys: seq<T>)
    ensures SortedBy(ys, key)
    ensures multiset(ys) == multiset(xs)
  {
    ys := [];
    for i := 0 to |xs|
      invariant SortedBy(ys, key)
      invariant multiset(ys) == multiset(xs[..i])
    {
      ys := InsertByKey(ys, xs[i], key);
      assert xs[..i + 1] == xs[..i] + [xs[i]];
    }
    assert xs[..|xs|] == xs;
  }

  /** Sorting by keys that are pairwise different orders the keys strictly. */
  lemma SortedByDistinctKeys<T>(s: seq<T>, key: T -> string)
    requires SortedBy(s, key)
    requires forall i, j :: 0 <= i < j < |s| ==> key(s[i]) != key(s[j])
    ensures forall i, j :: 0 <= i < j < |s| ==> Less(key(s[i]), key(s[j]))
  {
    forall i, j | 0 <= i < j < |s| ensures Less(key(s[i]), key(s[j])) {
      LessTotal(key(s[i]), key(s[j]));
    }
  }

  predicate Distinct<T(==)>(s: seq<T>)
  {
    forall i, j :: 0 <= i < j < |s| ==> s[i] != s[j]
  }

  lemma {:induction false} DistinctCount<T>(s: seq<T>, v: T)
    requires Distinct(s)
    ensures multiset(s)[v] <= 1
    decreases |s|
  {
    if s != [] {
      var p := s[..|s| - 1];
      assert s == p + [s[|s| - 1]];
      assert Distinct(p);
      DistinctCount(p, v);
      if s[|s| - 1] == v {
        assert v !in p;
      }
    }
  }

  lemma RepeatCount<T>(s: seq<T>, i: nat, j: nat)
    requires i < j < |s| && s[i] == s[j]
    ensures multiset(s)[s[i]] >= 2
  {
    assert s == s[..j] + [s[j]] + s[j + 1..];
    assert s[..j][i] == s[i];
    assert s[i] in multiset(s[..j]);
  }

  /** A permutation of a sequence without repetition has none either. */
  lemma PermutationDistinct<T>(xs: seq<T>, ys: seq<T>)
    requires Distinct(xs) && multiset(xs) == multiset(ys)
    ensures Distinct(ys)
  {
    forall i, j | 0 <= i < j < |ys| ensures ys[i] != ys[j] {
      DistinctCount(xs, ys[i]);
      if ys[i] == ys[j] {
        RepeatCount(ys, i, j);
      }
    }
  }

  /** The elements of a finite set of strings, listed in sorted order as a
      TreeMap's key set iterates them. */
  method SortedNames(S: set<string>) returns (r: seq<string>)
    ensures r == SortedSeq(S)
  {
    var xs: seq<string> := [];
    var rest := S;
    while rest != {}
      invariant rest <= S && Distinct(xs)
      invariant forall x :: x in xs <==> x in S && x !in rest
      decreases |rest|
    {
      var x :| x in rest;
      xs := xs + [x];
      rest := rest - {x};
    }
    var key := (s: string) => s;
    r := SortByKey(xs, key);
    PermutationDistinct(xs, r);
    forall i, j | 0 <= i < j < |r| ensures Less(r[i], r[j]) {
      LessTotal(key(r[i]), key(r[j]));
    }
    forall x ensures x in r <==> x in S {
      assert x in r <==> x in multiset(r);
      assert x in xs <==> x in multiset(xs);
    }
    SortedSeqOf(r, S);
  }

  /** Strictly increasing: the iteration order of a TreeSet<Long>. */
  predicate Increasing(s: seq<int>)
  {
    forall i, j :: 0 <= i < j < |s| ==> s[i] < s[j]
  }

  /** x placed at position j of an increasing sequence, after the smaller
      elements and before the larger ones, keeps it increasing. */
  lemma InsertAt(s: seq<int>, j: int, x: int)
    requires Increasing(s) && 0 <= j <= |s|
    requires forall k :: 0 <= k < j ==> s[k] < x
    requires forall k :: j <= k < |s| ==> x < s[k]
    ensures Increasing(s[..j] + [x] + s[j..])
  {
    var r := s[..j] + [x] + s[j..];
    forall a, b | 0 <= a < b < |r|
      ensures r[a] < r[b]
    {
      if b < j {
        assert r[a] == s[a] && r[b] == s[b];
      } else if b == j {
        assert r[a] == s[a];
      } else if a == j {
        assert r[b] == s[b - 1];
      } else if a < j {
        assert r[a] == s[a] && r[b] == s[b - 1];
      } else {
        assert r[a] == s[a - 1] && r[b] == s[b - 1];
      }
    }
  }

  method InsertIncreasing(s: seq<int>, x: int) returns (r: seq<int>)
    requires Increasing(s) && x !in s
    ensures Increasing(r)
    ensures forall y :: y in r <==> y in s || y == x
  {
    var j := 0;
    while j < |s| && s[j] < x
      invariant 0 <= j <= |s|
      invariant forall k :: 0 <= k < j ==> s[k] < x
    {
      j := j + 1;
    }
    if j < |s| {
      assert s[j] in s;
      assert x < s[j];
    }
    InsertAt(s, j, x);
    r := s[..j] + [x] + s[j..];
    assert s == s[..j] + s[j..];
  }

  /** The sequence without x: TreeSet.remove. */
  function Without(s: seq<int>, x: int): (r: seq<int>)
    requires Increasing(s)
    ensures Increasing(r)
    ensures forall y :: y in r <==> y in s && y != x
    ensures x !in s ==> r == s
  {
    if s == [] then []
    else
      TailAbove(s);
      if s[0] == x then s[1..]
      else
        var rest := Without(s[1..], x);
        ConsIncreasing(s[0], rest);
        assert s == [s[0]] + s[1..];
        [s[0]] + rest
  }

  /** Every element after the first of an increasing sequence exceeds it. */
  lemma TailAbove(s: seq<int>)
    requires Increasing(s) && s != []
    ensures Increasing(s[1..])
    ensures forall y :: y in s[1..] ==> s[0] < y
  {
    forall y | y in s[1..]
      ensures s[0] < y
    {
      var k :| 0 <= k < |s[1..]| && s[1..][k] == y;
      assert s[k + 1] == y;
    }
  }

  lemma ConsIncreasing(h: int, t: seq<int>)
    requires Increasing(t)
    requires forall y :: y in t ==> h < y
    ensures Increasing([h] + t)
  {
    var r := [h] + t;
    forall a, b | 0 <= a < b < |r|
      ensures r[a] < r[b]
    {
      assert r[b] == t[b - 1];
      if a == 0 {
        assert t[b - 1] in t;
      } else {
        assert r[a] == t[a - 1];
      }
    }
  }
}
