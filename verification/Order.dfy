/**
 What sorting means, independently of any data structure: sequences ordered by a
 comparison, stability, merging of sorted sequences, and nondecreasing runs.

 The elements may be object references; a comparison is then a function of the
 references alone (the data it looks at does not change while sorting).
 */
module Order {

  /** `less` is a strict weak order on the elements of `s`. */
  ghost predicate StrictWeak<T>(less: (T, T) -> bool, s: seq<T>) {
    && (forall x, y {:trigger less(x, y)} | x in s && y in s :: less(x, y) ==> !less(y, x))
    && (forall x, y, z {:trigger Between(less, x, y, z)} | x in s && y in s && z in s :: Between(less, x, y, z))
  }

  // "Not smaller" is transitive: whatever separates x from z is on one side of y.
  predicate Between<T>(less: (T, T) -> bool, x: T, y: T, z: T) {
    less(x, z) ==> less(x, y) || less(y, z)
  }

  predicate Equiv<T>(less: (T, T) -> bool, x: T, y: T) {
    !less(x, y) && !less(y, x)
  }

  ghost predicate Sorted<T>(less: (T, T) -> bool, s: seq<T>) {
    forall i, j | 0 <= i < j < |s| :: !less(s[j], s[i])
  }

  /** The elements of `s` that compare equal to `x`, in their order in `s`. */
  ghost function Class<T>(less: (T, T) -> bool, x: T, s: seq<T>): seq<T> {
    if s == [] then [] else (if Equiv(less, x, s[0]) then [s[0]] else []) + Class(less, x, s[1..])
  }

  /** Every class of equal elements of `s` appears in `t` with the same members in the same order. */
  ghost predicate SameClasses<T>(less: (T, T) -> bool, s: seq<T>, t: seq<T>) {
    && multiset(s) == multiset(t)
    && forall x | x in s :: Class(less, x, s) == Class(less, x, t)
  }

  /** `t` is the stable sort of `s`. */
  ghost predicate StableSort<T>(less: (T, T) -> bool, s: seq<T>, t: seq<T>) {
    Sorted(less, t) && SameClasses(less, s, t)
  }

  lemma SameElements<T>(s: seq<T>, t: seq<T>)
    requires multiset(s) == multiset(t)
    ensures |s| == |t|
    ensures forall x :: x in s <==> x in t
  {
    assert |multiset(s)| == |s| && |multiset(t)| == |t|;
    forall x
      ensures x in s <==> x in t
    {
      assert x in s <==> x in multiset(s);
      assert x in t <==> x in multiset(t);
    }
  }

  lemma SameClassesTrans<T>(less: (T, T) -> bool, s: seq<T>, t: seq<T>, u: seq<T>)
    requires SameClasses(less, s, t) && SameClasses(less, t, u)
    ensures SameClasses(less, s, u)
  {
    SameElements(s, t);
  }

  lemma StrictWeakSame<T>(less: (T, T) -> bool, s: seq<T>, t: seq<T>)
    requires StrictWeak(less, s)
    requires forall x :: x in t ==> x in s
    ensures StrictWeak(less, t)
  {
  }

  lemma {:induction false} ClassConcat<T>(less: (T, T) -> bool, x: T, a: seq<T>, b: seq<T>)
    ensures Class(less, x, a + b) == Class(less, x, a) + Class(less, x, b)
  {
    if a == [] {
      assert a + b == b;
    } else {
      ClassConcat(less, x, a[1..], b);
      assert (a + b)[0] == a[0] && (a + b)[1..] == a[1..] + b;
      var h := if Equiv(less, x, a[0]) then [a[0]] else [];
      assert h + (Class(less, x, a[1..]) + Class(less, x, b)) == (h + Class(less, x, a[1..])) + Class(less, x, b);
    }
  }

  /* ----- merging ----- */

  /** Merge that prefers `a` unless the head of `b` is strictly smaller. */
  ghost function Merge<T>(less: (T, T) -> bool, a: seq<T>, b: seq<T>): (m: seq<T>)
    ensures |m| == |a| + |b|
    decreases |a| + |b|
  {
    if a == [] then b
    else if b == [] then a
    else if less(b[0], a[0]) then [b[0]] + Merge(less, a, b[1..])
    else [a[0]] + Merge(less, a[1..], b)
  }

  lemma {:induction false} MergeElements<T>(less: (T, T) -> bool, a: seq<T>, b: seq<T>)
    ensures multiset(Merge(less, a, b)) == multiset(a) + multiset(b)
    decreases |a| + |b|
  {
    if a == [] || b == [] {
      assert multiset(a + b) == multiset(a) + multiset(b);
      assert a + b == Merge(less, a, b);
    } else if less(b[0], a[0]) {
      MergeElements(less, a, b[1..]);
      ConsElements(b[0], b[1..], b);
      ConsElements(b[0], Merge(less, a, b[1..]), Merge(less, a, b));
    } else {
      MergeElements(less, a[1..], b);
      ConsElements(a[0], a[1..], a);
      ConsElements(a[0], Merge(less, a[1..], b), Merge(less, a, b));
    }
  }

  lemma ConsElements<T>(x: T, s: seq<T>, t: seq<T>)
    requires t == [x] + s
    ensures multiset(t) == multiset{x} + multiset(s)
  {
  }

  lemma MergeMember<T>(less: (T, T) -> bool, a: seq<T>, b: seq<T>, y: T)
    requires y in Merge(less, a, b)
    ensures y in a || y in b
  {
    MergeElements(less, a, b);
    assert y in multiset(Merge(less, a, b));
    assert y in multiset(a) || y in multiset(b);
  }

  lemma SortedCons<T>(less: (T, T) -> bool, x: T, s: seq<T>)
    requires Sorted(less, s)
    requires forall y | y in s :: !less(y, x)
    ensures Sorted(less, [x] + s)
  {
    var t := [x] + s;
    forall i, j | 0 <= i < j < |t|
      ensures !less(t[j], t[i])
    {
      assert t[j] == s[j - 1];
      if i > 0 {
        assert t[i] == s[i - 1];
      }
    }
  }

  lemma SortedTail<T>(less: (T, T) -> bool, s: seq<T>)
    requires Sorted(less, s) && s != []
    ensures Sorted(less, s[1..])
    ensures forall y | y in s[1..] :: !less(y, s[0])
  {
  }

  lemma {:induction false} MergeSorted<T>(less: (T, T) -> bool, a: seq<T>, b: seq<T>)
    requires StrictWeak(less, a + b)
    requires Sorted(less, a) && Sorted(less, b)
    ensures Sorted(less, Merge(less, a, b))
    decreases |a| + |b|
  {
    if a == [] || b == [] {
    } else if less(b[0], a[0]) {
      SortedTail(less, b);
      SortedTail(less, a);
      StrictWeakSame(less, a + b, a + b[1..]);
      MergeSorted(less, a, b[1..]);
      forall y | y in Merge(less, a, b[1..])
        ensures !less(y, b[0])
      {
        MergeMember(less, a, b[1..], y);
        if y in a {
          assert y in a + b && a[0] in a + b && b[0] in a + b;
          assert Between(less, y, a[0], b[0]) && !less(y, a[0]) && !less(a[0], b[0]);
        } else {
          assert y in b[1..];
        }
      }
      SortedCons(less, b[0], Merge(less, a, b[1..]));
    } else {
      SortedTail(less, a);
      SortedTail(less, b);
      StrictWeakSame(less, a + b, a[1..] + b);
      MergeSorted(less, a[1..], b);
      forall y | y in Merge(less, a[1..], b)
        ensures !less(y, a[0])
      {
        MergeMember(less, a[1..], b, y);
        if y in b {
          assert y in a + b && a[0] in a + b && b[0] in a + b;
          assert y == b[0] || y in b[1..];
          assert Between(less, y, b[0], a[0]) && !less(y, b[0]);
        } else {
          assert y in a[1..];
        }
      }
      SortedCons(less, a[0], Merge(less, a[1..], b));
    }
  }

  lemma {:induction false} ClassEmpty<T>(less: (T, T) -> bool, x: T, s: seq<T>)
    requires forall y | y in s :: less(x, y)
    ensures Class(less, x, s) == []
  {
    if s == [] {
    } else {
      ClassEmpty(less, x, s[1..]);
    }
  }

  /** Merging keeps every class in order: first its members from `a`, then those from `b`. */
  lemma {:induction false} MergeClass<T>(less: (T, T) -> bool, x: T, a: seq<T>, b: seq<T>)
    requires StrictWeak(less, a + b) && Sorted(less, a) && x in a + b
    ensures Class(less, x, Merge(less, a, b)) == Class(less, x, a) + Class(less, x, b)
    decreases |a| + |b|
  {
    var m := Merge(less, a, b);
    MergeClassAny(less, x, a, b, a + b);
  }

  // The same with the order known on a possibly larger sequence.
  lemma {:induction false} MergeClassAny<T>(less: (T, T) -> bool, x: T, a: seq<T>, b: seq<T>, all: seq<T>)
    requires StrictWeak(less, all) && Sorted(less, a) && x in all
    requires forall y :: y in a || y in b ==> y in all
    ensures Class(less, x, Merge(less, a, b)) == Class(less, x, a) + Class(less, x, b)
    decreases |a| + |b|
  {
    var m := Merge(less, a, b);
    if a == [] || b == [] {
    } else if less(b[0], a[0]) {
      MergeClassAny(less, x, a, b[1..], all);
      assert m[1..] == Merge(less, a, b[1..]);
      if Equiv(less, x, b[0]) {
        forall y | y in a
          ensures less(x, y)
        {
          assert !less(y, a[0]);
          assert Between(less, b[0], x, a[0]) && Between(less, x, y, a[0]);
        }
        ClassEmpty(less, x, a);
      }
    } else {
      SortedTail(less, a);
      MergeClassAny(less, x, a[1..], b, all);
      assert m[1..] == Merge(less, a[1..], b);
    }
  }

  /* ----- runs ----- */

  /** Length of the longest nondecreasing prefix, as found by comparing neighbours. */
  ghost function RunLength<T>(less: (T, T) -> bool, s: seq<T>): (n: nat)
    requires s != []
    ensures 1 <= n <= |s|
  {
    if |s| > 1 && !less(s[1], s[0]) then 1 + RunLength(less, s[1..]) else 1
  }

  /** Number of maximal nondecreasing runs. */
  ghost function Runs<T>(less: (T, T) -> bool, s: seq<T>): nat {
    if |s| <= 1 then |s| else Runs(less, s[1..]) + (if less(s[1], s[0]) then 1 else 0)
  }

  /** One pass: adjacent runs merged two by two. */
  ghost function Pass<T>(less: (T, T) -> bool, s: seq<T>): (t: seq<T>)
    ensures |t| == |s|
  {
    if s == [] then []
    else
      var n := RunLength(less, s);
      if n == |s| then s
      else
        var k := RunLength(less, s[n..]);
        Merge(less, s[..n], s[n..][..k]) + Pass(less, s[n..][k..])
  }

  /** Number of output runs counted by one pass. */
  ghost function PassRuns<T>(less: (T, T) -> bool, s: seq<T>): nat {
    if s == [] then 0
    else
      var n := RunLength(less, s);
      if n == |s| then 1 else 1 + PassRuns(less, s[n..][RunLength(less, s[n..])..])
  }

  lemma {:induction false} RunIsSorted<T>(less: (T, T) -> bool, s: seq<T>)
    requires s != [] && StrictWeak(less, s)
    ensures Sorted(less, s[..RunLength(less, s)])
  {
    var n := RunLength(less, s);
    if n > 1 {
      RunIsSorted(less, s[1..]);
      assert s[..n] == [s[0]] + s[1..][..n - 1];
      forall y | y in s[1..][..n - 1]
        ensures !less(y, s[0])
      {
        var j :| 0 <= j < n - 1 && s[1..][..n - 1][j] == y;
        assert j > 0 ==> !less(s[1..][..n - 1][j], s[1..][..n - 1][0]);
        assert Between(less, y, s[1], s[0]);
      }
      SortedCons(less, s[0], s[1..][..n - 1]);
    }
  }

  lemma {:induction false} RunsAfterRun<T>(less: (T, T) -> bool, s: seq<T>)
    requires s != []
    ensures Runs(less, s) == 1 + Runs(less, s[RunLength(less, s)..])
  {
    var n := RunLength(less, s);
    if n > 1 {
      RunsAfterRun(less, s[1..]);
      assert s[n..] == s[1..][n - 1..];
    }
  }

  lemma {:induction false} RunsConcat<T>(less: (T, T) -> bool, a: seq<T>, b: seq<T>)
    ensures Runs(less, a + b) <= Runs(less, a) + Runs(less, b)
  {
    if a == [] {
      assert a + b == b;
    } else if |a| == 1 {
      assert (a + b)[1..] == b;
    } else {
      RunsConcat(less, a[1..], b);
      assert (a + b)[1..] == a[1..] + b;
    }
  }

  lemma {:induction false} RunsSorted<T>(less: (T, T) -> bool, s: seq<T>)
    requires Sorted(less, s)
    ensures Runs(less, s) <= 1
  {
    if |s| > 1 {
      SortedTail(less, s);
      RunsSorted(less, s[1..]);
    }
  }

  // A pass over a sequence with at least two runs, the first two being `n` and `k` long.
  lemma PassUnfold<T>(less: (T, T) -> bool, s: seq<T>, n: nat, k: nat)
    requires s != [] && n == RunLength(less, s) < |s| && k == RunLength(less, s[n..])
    ensures Pass(less, s) == Merge(less, s[..n], s[n..][..k]) + Pass(less, s[n..][k..])
    ensures PassRuns(less, s) == 1 + PassRuns(less, s[n..][k..])
  {
  }

  // A pass over a single run, and over nothing.
  lemma PassOfRun<T>(less: (T, T) -> bool, s: seq<T>)
    requires s != [] && RunLength(less, s) == |s|
    ensures Pass(less, s) == s && PassRuns(less, s) == 1
    ensures Pass<T>(less, []) == [] && PassRuns<T>(less, []) == 0
  {
  }

  lemma Assoc<T>(p: seq<T>, m: seq<T>, t: seq<T>)
    ensures (p + m) + t == p + (m + t)
  {
  }

  // The same with the two runs known to be sorted.
  lemma PassStep<T>(less: (T, T) -> bool, s: seq<T>) returns (a: seq<T>, b: seq<T>, rest: seq<T>)
    requires StrictWeak(less, s)
    requires s != [] && RunLength(less, s) < |s|
    ensures s == a + (b + rest) && |rest| < |s|
    ensures Pass(less, s) == Merge(less, a, b) + Pass(less, rest)
    ensures PassRuns(less, s) == 1 + PassRuns(less, rest)
    ensures Sorted(less, a) && Sorted(less, b)
    ensures Runs(less, s) == 2 + Runs(less, rest)
  {
    var n := RunLength(less, s);
    var s1 := s[n..];
    var k := RunLength(less, s1);
    a, b, rest := s[..n], s1[..k], s1[k..];
    RunIsSorted(less, s);
    StrictWeakSame(less, s, s1);
    RunIsSorted(less, s1);
    RunsAfterRun(less, s);
    RunsAfterRun(less, s1);
  }

  /** A pass counts half the runs of its input, rounded up, and leaves no more than it counts. */
  lemma {:induction false} PassHalvesRuns<T>(less: (T, T) -> bool, s: seq<T>)
    requires StrictWeak(less, s)
    ensures PassRuns(less, s) == (Runs(less, s) + 1) / 2
    ensures Runs(less, Pass(less, s)) <= PassRuns(less, s)
    decreases |s|
  {
    if s != [] {
      if RunLength(less, s) == |s| {
        RunsAfterRun(less, s);
        assert s[..|s|] == s;
        RunIsSorted(less, s);
        RunsSorted(less, s);
      } else {
        var a, b, rest := PassStep(less, s);
        StrictWeakSame(less, s, rest);
        PassHalvesRuns(less, rest);
        StrictWeakSame(less, s, a + b);
        MergeSorted(less, a, b);
        RunsSorted(less, Merge(less, a, b));
        RunsConcat(less, Merge(less, a, b), Pass(less, rest));
      }
    }
  }

  /** A pass keeps every class of equal elements in order. */
  lemma PassKeepsClasses<T>(less: (T, T) -> bool, s: seq<T>)
    requires StrictWeak(less, s)
    ensures SameClasses(less, s, Pass(less, s))
  {
    PassKeepsElements(less, s);
    forall x | x in s
      ensures Class(less, x, s) == Class(less, x, Pass(less, s))
    {
      PassKeepsClass(less, x, s, s);
    }
  }

  lemma {:induction false} PassKeepsElements<T>(less: (T, T) -> bool, s: seq<T>)
    requires StrictWeak(less, s)
    ensures multiset(s) == multiset(Pass(less, s))
    decreases |s|
  {
    if s != [] && RunLength(less, s) < |s| {
      var a, b, rest := PassStep(less, s);
      StrictWeakSame(less, s, rest);
      PassKeepsElements(less, rest);
      MergeElements(less, a, b);
    }
  }

  lemma {:induction false} PassKeepsClass<T>(less: (T, T) -> bool, x: T, s: seq<T>, all: seq<T>)
    requires StrictWeak(less, all) && x in all
    requires forall y :: y in s ==> y in all
    ensures Class(less, x, s) == Class(less, x, Pass(less, s))
    decreases |s|
  {
    if s != [] && RunLength(less, s) < |s| {
      StrictWeakSame(less, all, s);
      var a, b, rest := PassStep(less, s);
      PassKeepsClass(less, x, rest, all);
      MergeClassAny(less, x, a, b, all);
      ClassConcat(less, x, a, b + rest);
      ClassConcat(less, x, b, rest);
      ClassConcat(less, x, Merge(less, a, b), Pass(less, rest));
    }
  }

  /** A sequence with at most one run is sorted. */
  lemma OneRunSorted<T>(less: (T, T) -> bool, s: seq<T>)
    requires StrictWeak(less, s)
    requires Runs(less, s) <= 1
    ensures Sorted(less, s)
  {
    if s != [] {
      RunsAfterRun(less, s);
      var rest := s[RunLength(less, s)..];
      if rest != [] {
        RunsAfterRun(less, rest);
      }
      assert s[..RunLength(less, s)] == s;
      RunIsSorted(less, s);
    }
  }

  /* ----- how many passes ----- */

  /** Passes made on a sequence with `runs` runs. */
  ghost function Passes(runs: nat): nat {
    if runs <= 2 then 1 else 1 + Passes((runs + 1) / 2)
  }

  ghost function Power2(n: nat): nat {
    if n == 0 then 1 else 2 * Power2(n - 1)
  }

  lemma {:induction false} PassesMonotone(r: nat, r': nat)
    requires r <= r'
    ensures Passes(r) <= Passes(r')
  {
    if r > 2 {
      PassesMonotone((r + 1) / 2, (r' + 1) / 2);
    }
  }

  /** Passes(runs) is max(1, ceil(log2 runs)). */
  lemma {:induction false} PassesIsLog(runs: nat)
    ensures Passes(runs) >= 1
    ensures runs <= Power2(Passes(runs))
    ensures Passes(runs) > 1 ==> Power2(Passes(runs) - 1) < runs
  {
    if runs <= 2 {
      assert Power2(1) == 2 * Power2(0);
    } else {
      PassesIsLog((runs + 1) / 2);
    }
  }

  /* ----- uniqueness ----- */

  lemma ClassHead<T>(less: (T, T) -> bool, s: seq<T>)
    requires s != [] && !less(s[0], s[0])
    ensures Class(less, s[0], s) == [s[0]] + Class(less, s[0], s[1..])
  {
  }

  // The heads of two stable sorts are equal elements, and each is the first member of its class.
  lemma SameHead<T>(less: (T, T) -> bool, s: seq<T>, t: seq<T>)
    requires StrictWeak(less, s)
    requires Sorted(less, s) && Sorted(less, t) && SameClasses(less, s, t)
    requires s != [] && t != []
    ensures s[0] == t[0]
  {
    SameElements(s, t);
    var x, y := s[0], t[0];
    assert x in t && y in s;
    var i :| 0 <= i < |t| && t[i] == x;
    var j :| 0 <= j < |s| && s[j] == y;
    assert !less(x, x);
    assert Equiv(less, x, y);
    ClassHead(less, s);
    assert Class(less, x, t) == [y] + Class(less, x, t[1..]);
    assert Class(less, x, t)[0] == y;
  }

  lemma SameTailClass<T>(less: (T, T) -> bool, z: T, s: seq<T>, t: seq<T>)
    requires s != [] && t != [] && s[0] == t[0]
    requires Class(less, z, s) == Class(less, z, t)
    ensures Class(less, z, s[1..]) == Class(less, z, t[1..])
  {
    var h := if Equiv(less, z, s[0]) then [s[0]] else [];
    assert Class(less, z, s[1..]) == Class(less, z, s)[|h|..];
    assert Class(less, z, t[1..]) == Class(less, z, t)[|h|..];
  }

  /** Sortedness and stability determine the result: any two stable sorts agree element for element. */
  lemma {:induction false} StableSortUnique<T>(less: (T, T) -> bool, s: seq<T>, t: seq<T>)
    requires StrictWeak(less, s)
    requires Sorted(less, s) && Sorted(less, t) && SameClasses(less, s, t)
    ensures s == t
    decreases |s|
  {
    SameElements(s, t);
    if s != [] {
      SameHead(less, s, t);
      var x := s[0];
      assert multiset(s[1..]) == multiset(t[1..]) by {
        assert s == [x] + s[1..] && t == [x] + t[1..];
        ConsElements(x, s[1..], s);
        ConsElements(x, t[1..], t);
        assert multiset(s) - multiset{x} == multiset(s[1..]);
        assert multiset(t) - multiset{x} == multiset(t[1..]);
      }
      forall z | z in s[1..]
        ensures Class(less, z, s[1..]) == Class(less, z, t[1..])
      {
        SameTailClass(less, z, s, t);
      }
      StrictWeakSame(less, s, s[1..]);
      StableSortUnique(less, s[1..], t[1..]);
    }
  }

  /** Inserting after everything that is not greater gives the stable sort of the sequence with x appended. */
  lemma InsertedInOrder<T>(less: (T, T) -> bool, s: seq<T>, x: T, k: nat)
    requires StrictWeak(less, s + [x]) && Sorted(less, s)
    requires k <= |s| && (forall i | 0 <= i < k :: !less(x, s[i])) && (k < |s| ==> less(x, s[k]))
    ensures StableSort(less, s + [x], s[..k] + [x] + s[k..])
  {
    var a, b := s[..k], s[k..];
    var t := a + [x] + b;
    assert s == a + b;
    forall j | 0 <= j < |b|
      ensures less(x, b[j])
    {
      if j > 0 {
        assert !less(s[k + j], s[k]);
        assert x in s + [x] && s[k] in s + [x] && s[k + j] in s + [x];
        assert Between(less, x, s[k + j], s[k]);
      }
    }
    InsertedSorted(less, a, x, b, s);
    assert multiset(t) == multiset(s + [x]) by {
      assert multiset(t) == multiset(a) + multiset{x} + multiset(b);
    }
    forall z | z in s + [x]
      ensures Class(less, z, s + [x]) == Class(less, z, t)
    {
      InsertedClass(less, z, a, x, b, s);
    }
  }

  lemma InsertedSorted<T>(less: (T, T) -> bool, a: seq<T>, x: T, b: seq<T>, s: seq<T>)
    requires StrictWeak(less, s + [x]) && Sorted(less, s) && s == a + b
    requires forall i | 0 <= i < |a| :: !less(x, a[i])
    requires forall j | 0 <= j < |b| :: less(x, b[j])
    ensures Sorted(less, a + [x] + b)
  {
    var t := a + [x] + b;
    forall i, j | 0 <= i < j < |t|
      ensures !less(t[j], t[i])
    {
      if j < |a| {
        assert t[j] == s[j] && t[i] == s[i];
      } else if i < |a| < j {
        assert t[j] == s[j - 1] && t[i] == s[i];
      } else if i > |a| {
        assert t[j] == s[j - 1] && t[i] == s[i - 1];
      } else if i == |a| {
        assert t[j] == b[j - |a| - 1] && b[j - |a| - 1] == s[j - 1] && x in s + [x] && s[j - 1] in s + [x];
      } else {
        assert t[j] == x && t[i] == a[i];
      }
    }
  }

  lemma InsertedClass<T>(less: (T, T) -> bool, z: T, a: seq<T>, x: T, b: seq<T>, s: seq<T>)
    requires StrictWeak(less, s + [x]) && s == a + b && z in s + [x]
    requires forall y | y in b :: less(x, y)
    ensures Class(less, z, s + [x]) == Class(less, z, a + [x] + b)
  {
    ClassConcat(less, z, s, [x]);
    ClassConcat(less, z, a, b);
    ClassConcat(less, z, a + [x], b);
    ClassConcat(less, z, a, [x]);
    if Equiv(less, z, x) {
      forall y | y in b
        ensures less(z, y)
      {
        assert y in s + [x] && x in s + [x];
        assert Between(less, x, z, y);
      }
      ClassEmpty(less, z, b);
    }
  }

  /* ----- dropping repeated neighbours ----- */

  /** What remains when every element equal to the last one kept is dropped. */
  ghost function Kept<T>(less: (T, T) -> bool, s: seq<T>): seq<T>
    decreases |s|
  {
    if |s| <= 1 then s
    else if Equiv(less, s[0], s[1]) then Kept(less, [s[0]] + s[2..])
    else [s[0]] + Kept(less, s[1..])
  }

  /** The dropped elements, in order. */
  ghost function Dropped<T>(less: (T, T) -> bool, s: seq<T>): seq<T>
    decreases |s|
  {
    if |s| <= 1 then []
    else if Equiv(less, s[0], s[1]) then [s[1]] + Dropped(less, [s[0]] + s[2..])
    else Dropped(less, s[1..])
  }

  /** Nothing is lost: the kept and the dropped elements are the original ones. */
  lemma {:induction false} KeptAndDropped<T>(less: (T, T) -> bool, s: seq<T>)
    ensures multiset(Kept(less, s)) + multiset(Dropped(less, s)) == multiset(s)
    decreases |s|
  {
    if |s| > 1 {
      if Equiv(less, s[0], s[1]) {
        var t := [s[0]] + s[2..];
        KeptAndDropped(less, t);
        ConsElements(s[1], Dropped(less, t), Dropped(less, s));
        SkipElements(s, t);
      } else {
        KeptAndDropped(less, s[1..]);
        ConsElements(s[0], Kept(less, s[1..]), Kept(less, s));
        ConsElements(s[0], s[1..], s);
      }
    }
  }

  lemma SkipElements<T>(s: seq<T>, t: seq<T>)
    requires |s| > 1 && t == [s[0]] + s[2..]
    ensures multiset(s) == multiset{s[1]} + multiset(t)
  {
    assert s == [s[0], s[1]] + s[2..];
  }

  lemma KeptMembers<T>(less: (T, T) -> bool, s: seq<T>, k: seq<T>, d: seq<T>)
    requires k == Kept(less, s) && d == Dropped(less, s)
    ensures forall y :: y in k ==> y in s
    ensures forall y :: y in d ==> y in s
  {
    KeptAndDropped(less, s);
    forall y | y in k ensures y in s { assert y in multiset(k) && y in multiset(s); }
    forall y | y in d ensures y in s { assert y in multiset(d) && y in multiset(s); }
  }

  /** On a sorted sequence exactly the first member of every class of equal elements is kept. */
  lemma {:induction false} KeptFirstOfClass<T>(less: (T, T) -> bool, x: T, s: seq<T>)
    requires StrictWeak(less, s) && Sorted(less, s) && x in s
    ensures Class(less, x, s) != []
    ensures Class(less, x, Kept(less, s)) == Class(less, x, s)[..1]
    ensures Class(less, x, Dropped(less, s)) == Class(less, x, s)[1..]
    decreases |s|
  {
    hide StrictWeak, Sorted, Equiv, Kept, Dropped, Class;
    if |s| <= 1 {
      FirstOfOne(less, x, s);
    } else if Equiv(less, s[0], s[1]) {
      var t := [s[0]] + s[2..];
      var y := if x == s[1] then s[0] else x;
      StrictWeakSame(less, s, t);
      SortedSkip(less, s);
      KeptFirstOfClass(less, y, t);
      SkipClass(less, s, t, y);
      SkipFirst(less, s, y);
      EquivItself(less, s, x);
      EquivSwap(less, s[0], s[1]);
      assert s[0] in s;
      SameClass(less, s, x, y);
    } else {
      SortedTail(less, s);
      StepUp(less, s);
      StrictWeakSame(less, s, s[1..]);
      if Equiv(less, x, s[0]) {
        NoLaterMember(less, x, s);
      } else {
        NotFirst(less, x, s);
        KeptFirstOfClass(less, x, s[1..]);
      }
    }
  }

  lemma EquivSwap<T>(less: (T, T) -> bool, x: T, y: T)
    ensures Equiv(less, x, y) <==> Equiv(less, y, x)
  {
  }

  lemma FirstOfOne<T>(less: (T, T) -> bool, x: T, s: seq<T>)
    requires StrictWeak(less, s) && s == [x]
    ensures Class(less, x, s) == Class(less, x, Kept(less, s)) == [x] && Class(less, x, Dropped(less, s)) == []
  {
    EquivItself(less, s, x);
    ClassStep(less, x, s);
  }

  // What the class of y has more than it has without the second element.
  lemma SkipFirst<T>(less: (T, T) -> bool, s: seq<T>, y: T)
    requires |s| > 1
    ensures var rest := Class(less, y, s[2..]);
      && ([s[0]] + rest)[..1] == ([s[0], s[1]] + rest)[..1] && [s[1]] + ([s[0]] + rest)[1..] == ([s[0], s[1]] + rest)[1..]
      && [] + rest == rest && forall d: seq<T> :: [] + d == d
  {
    hide Class;
  }

  // An element that is not equal to the first one.
  lemma NotFirst<T>(less: (T, T) -> bool, x: T, s: seq<T>)
    requires StrictWeak(less, s) && x in s && |s| > 1 && !Equiv(less, x, s[0]) && !Equiv(less, s[0], s[1])
    ensures x in s[1..] && Class(less, x, s) == Class(less, x, s[1..])
    ensures Class(less, x, Kept(less, s)) == Class(less, x, Kept(less, s[1..])) && Dropped(less, s) == Dropped(less, s[1..])
  {
    hide Kept, Dropped, Class;
    EquivItself(less, s, x);
    ClassStep(less, x, s);
    UniqueStep(less, s);
    var k := Kept(less, s[1..]);
    assert ([s[0]] + k)[1..] == k;
    ClassStep(less, x, [s[0]] + k);
  }

  lemma EquivItself<T>(less: (T, T) -> bool, s: seq<T>, x: T)
    requires StrictWeak(less, s) && x in s
    ensures Equiv(less, x, x)
  {
    assert !less(x, x);
  }

  lemma StepUp<T>(less: (T, T) -> bool, s: seq<T>)
    requires Sorted(less, s) && |s| > 1 && !Equiv(less, s[0], s[1])
    ensures less(s[0], s[1])
  {
  }

  lemma SkipClass<T>(less: (T, T) -> bool, s: seq<T>, t: seq<T>, y: T)
    requires StrictWeak(less, s) && y in s && |s| > 1 && t == [s[0]] + s[2..] && Equiv(less, s[0], s[1])
    ensures Class(less, y, t) == (if Equiv(less, y, s[0]) then [s[0]] else []) + Class(less, y, s[2..])
    ensures Class(less, y, s) == (if Equiv(less, y, s[0]) then [s[0], s[1]] else []) + Class(less, y, s[2..])
    ensures Class(less, y, Kept(less, s)) == Class(less, y, Kept(less, t))
    ensures Class(less, y, Dropped(less, s)) == (if Equiv(less, y, s[0]) then [s[1]] else []) + Class(less, y, Dropped(less, t))
  {
    hide StrictWeak, Equiv, Kept, Dropped, Class;
    EquivTrans(less, s, y, s[0], s[1]);
    assert t[1..] == s[2..] && s[1..][1..] == s[2..];
    ClassStep(less, y, t);
    ClassStep(less, y, s);
    ClassStep(less, y, s[1..]);
    UniqueStep(less, s);
    var d := Dropped(less, t);
    assert ([s[1]] + d)[1..] == d;
    ClassStep(less, y, [s[1]] + d);
    var rest := Class(less, y, s[2..]);
    assert Equiv(less, y, s[0]) ==> [s[0]] + ([s[1]] + rest) == [s[0], s[1]] + rest;
    assert [] + ([] + rest) == [] + rest;
  }

  lemma ClassStep<T>(less: (T, T) -> bool, x: T, s: seq<T>)
    requires s != []
    ensures Class(less, x, s) == (if Equiv(less, x, s[0]) then [s[0]] else []) + Class(less, x, s[1..])
  {
    hide Equiv;
  }

  lemma UniqueStep<T>(less: (T, T) -> bool, s: seq<T>)
    requires |s| > 1
    ensures Equiv(less, s[0], s[1]) ==> Kept(less, s) == Kept(less, [s[0]] + s[2..]) && Dropped(less, s) == [s[1]] + Dropped(less, [s[0]] + s[2..])
    ensures !Equiv(less, s[0], s[1]) ==> Kept(less, s) == [s[0]] + Kept(less, s[1..]) && Dropped(less, s) == Dropped(less, s[1..])
  {
    hide Equiv;
  }

  // A sorted sequence without its second element is sorted.
  lemma SortedSkip<T>(less: (T, T) -> bool, s: seq<T>)
    requires Sorted(less, s) && |s| > 1
    ensures Sorted(less, [s[0]] + s[2..])
  {
    var t := [s[0]] + s[2..];
    forall i, j | 0 <= i < j < |t|
      ensures !less(t[j], t[i])
    {
      assert t[j] == s[j + 1] && t[i] == s[if i == 0 then 0 else i + 1];
    }
  }

  lemma EquivTrans<T>(less: (T, T) -> bool, s: seq<T>, x: T, y: T, z: T)
    requires StrictWeak(less, s) && x in s && y in s && z in s
    requires Equiv(less, y, z)
    ensures Equiv(less, x, y) <==> Equiv(less, x, z)
  {
    assert Between(less, x, y, z) && Between(less, z, y, x) && Between(less, x, z, y) && Between(less, y, z, x);
  }

  // Equal elements have the same class.
  lemma SameClass<T>(less: (T, T) -> bool, s: seq<T>, x: T, y: T)
    requires StrictWeak(less, s) && x in s && y in s && Equiv(less, x, y)
    ensures Class(less, x, s) == Class(less, y, s)
    ensures Class(less, x, Kept(less, s)) == Class(less, y, Kept(less, s))
    ensures Class(less, x, Dropped(less, s)) == Class(less, y, Dropped(less, s))
  {
    SameClassOf(less, s, x, y, s);
    var k, d := Kept(less, s), Dropped(less, s);
    KeptMembers(less, s, k, d);
    SameClassOf(less, s, x, y, k);
    SameClassOf(less, s, x, y, d);
  }

  lemma {:induction false} SameClassOf<T>(less: (T, T) -> bool, all: seq<T>, x: T, y: T, s: seq<T>)
    requires StrictWeak(less, all) && x in all && y in all && Equiv(less, x, y)
    requires forall z :: z in s ==> z in all
    ensures Class(less, x, s) == Class(less, y, s)
    decreases |s|
  {
    if s != [] {
      SameClassOf(less, all, x, y, s[1..]);
      EquivTrans(less, all, s[0], x, y);
    }
  }

  // After a strict step up, nothing later equals the first element.
  lemma NoLaterMember<T>(less: (T, T) -> bool, x: T, s: seq<T>)
    requires StrictWeak(less, s) && Sorted(less, s) && x in s
    requires |s| > 1 && less(s[0], s[1]) && Equiv(less, x, s[0])
    ensures Class(less, x, s) == [s[0]]
    ensures Class(less, x, Kept(less, s)) == [s[0]]
    ensures Class(less, x, Dropped(less, s)) == []
  {
    forall y | y in s[1..]
      ensures less(x, y)
    {
      SortedTail(less, s[1..]);
      assert !less(y, s[1]) by { assert y == s[1..][0] || y in s[1..][1..]; }
      assert Between(less, s[0], x, s[1]) && Between(less, x, y, s[1]);
    }
    ClassEmpty(less, x, s[1..]);
    var k, d := Kept(less, s[1..]), Dropped(less, s[1..]);
    KeptMembers(less, s[1..], k, d);
    ClassEmpty(less, x, k);
    ClassEmpty(less, x, d);
    assert Kept(less, s)[1..] == k;
  }
}
