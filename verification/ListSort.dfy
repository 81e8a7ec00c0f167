/**
 The two halves of the natural merge sort on a doubly linked list: runs are found
 where they lie, and merged by splicing single elements backwards.
 */
module ListSort {
  import opened Order
  import opened LinkedList

  // The first element of a nonempty sequence of nodes.
  ghost function Head(s: seq<Elem>): Elem
    requires s != []
  {
    s[0]
  }

  // Where the pieces of a chain begin and what their first links are.
  lemma Seam(p: seq<Elem>, a: seq<Elem>, r: seq<Elem>)
    requires a != [] && r != [] && Chain(p + (a + r))
    ensures a[0].next == (a[1..] + r)[0]
    ensures Head(a + r) == a[0] && a[0] != r[0] && a[0] !in p
    ensures (a[1..] + r)[0].prev == a[0]
    ensures (p + [a[0]]) + (a[1..] + r) == p + (a + r)
  {
    var s := p + (a + r);
    assert s[|p|] == a[0] && s[|p| + 1] == (a[1..] + r)[0];
    assert s[|p|].next == s[|p| + 1] && s[|p| + 1].prev == s[|p|];
    assert s[|p| + |a|] == r[0];
    forall i | 0 <= i < |p| ensures p[i] != a[0] { assert s[i] != s[|p|]; }
  }

  /**
   The exclusive end of the run that starts at `a`, looking no further than `b`.
   The list is p + s + r with `a` at the head of s and `b` at the head of r.
   */
  method FindEndOfRun(a: Elem, b: Elem, less: (Elem, Elem) -> bool, ghost p: seq<Elem>, ghost s: seq<Elem>, ghost r: seq<Elem>)
    returns (end: Elem)
    requires s != [] && r != [] && Chain(p + (s + r))
    requires a == s[0] && b == r[0]
    ensures end == (s[RunLength(less, s)..] + r)[0]
  {
    ghost var all := p + (s + r);
    ghost var n := 1;
    assert all[|p|] == a;
    end := a.next;
    while end != b && !less(end, end.prev)
      invariant 1 <= n <= |s|
      invariant end == all[|p| + n]
      invariant RunLength(less, s) == n - 1 + RunLength(less, s[n - 1..])
      decreases |s| - n
    {
      assert all[|p| + n - 1] == s[n - 1];
      assert n < |s| by {
        assert all[|p| + |s|] == r[0];
      }
      assert all[|p| + n] == s[n];
      assert s[n - 1..][1..] == s[n..];
      n := n + 1;
      end := end.next;
    }
    assert all[|p| + n - 1] == s[n - 1];
    assert all[|p| + |s|] == r[0];
    assert n < |s| ==> all[|p| + n] == s[n];
    assert RunLength(less, s[n - 1..]) == 1;
  }

  // The list before and after the first element of y is moved in front of x, regrouped.
  lemma Regroup(p: seq<Elem>, x: seq<Elem>, y: seq<Elem>, r: seq<Elem>)
    requires y != []
    ensures p + (x + (y + r)) == (p + x) + (y + r) == p + (x + ([y[0]] + (y[1..] + r)))
    ensures p + ([y[0]] + (x + (y[1..] + r))) == (p + [y[0]]) + (x + (y[1..] + r))
    ensures Nodes((p + [y[0]]) + (x + (y[1..] + r))) == Nodes(p + (x + (y + r)))
  {
    assert forall e :: e in [y[0]] + y[1..] <==> e in y;
  }

  // Steps over the element at `middle` and splices it in front of `first`.
  method MoveBack(first: Elem, middle: Elem, ghost p: seq<Elem>, ghost x: seq<Elem>, ghost y: seq<Elem>, ghost r: seq<Elem>)
    returns (next: Elem)
    requires p != [] && x != [] && y != [] && r != []
    requires Chain(p + (x + (y + r)))
    requires first == x[0] && middle == y[0]
    modifies Nodes(p + (x + (y + r)))
    ensures next == (y[1..] + r)[0]
    ensures Chain((p + [y[0]]) + (x + (y[1..] + r)))
    ensures Nodes((p + [y[0]]) + (x + (y[1..] + r))) == Nodes(p + (x + (y + r)))
  {
    ghost var y0, rest := [y[0]], y[1..] + r;
    Regroup(p, x, y, r);
    Seam(p + x, y, r);
    next := middle.next;
    SpliceWithin(first, next.prev, next, p, x, y0, rest, false);
  }

  /**
   Merges the adjacent ranges a and b of the list p + a + b + r in place, moving
   one element of b at a time in front of the rest of a.
   */
  method InplaceMerge(a0: Elem, a1b0: Elem, b1: Elem, less: (Elem, Elem) -> bool,
                      ghost p0: seq<Elem>, ghost a: seq<Elem>, ghost b: seq<Elem>, ghost r: seq<Elem>)
    requires p0 != [] && a != [] && b != [] && r != []
    requires Chain(p0 + (a + (b + r)))
    requires a0 == a[0] && a1b0 == b[0] && b1 == r[0]
    modifies Nodes(p0 + (a + (b + r)))
    ensures Chain(p0 + (Merge(less, a, b) + r))
  {
    var first, middle := a0, a1b0;
    ghost var p, x, y := p0, a, b;
    ghost var nodes := Nodes(p0 + (a + (b + r)));
    while first != middle && middle != b1
      invariant p != [] && Chain(p + (x + (y + r)))
      invariant first == (x + (y + r))[0] && middle == (y + r)[0]
      invariant p + Merge(less, x, y) == p0 + Merge(less, a, b)
      invariant Nodes(p + (x + (y + r))) == nodes
      decreases |x| + |y|
    {
      Ends(p, x, y, r);
      if !less(middle, first) {
        Seam(p, x, y + r);
        TakeLeft(less, p, x, y);
        assert (p + [x[0]]) + (x[1..] + (y + r)) == p + (x + (y + r));
        first := first.next;
        p, x := p + [x[0]], x[1..];
      } else {
        TakeRight(less, p, x, y);
        middle := MoveBack(first, middle, p, x, y, r);
        p, y := p + [y[0]], y[1..];
      }
    }
    Ends(p, x, y, r);
    Merged(less, p, x, y, r, p0, Merge(less, a, b));
  }

  // When one range is empty the list is the merged one.
  lemma Merged(less: (Elem, Elem) -> bool, p: seq<Elem>, x: seq<Elem>, y: seq<Elem>, r: seq<Elem>, p0: seq<Elem>, m: seq<Elem>)
    requires x == [] || y == []
    requires p + Merge(less, x, y) == p0 + m
    ensures p + (x + (y + r)) == p0 + (m + r)
  {
    assert x + (y + r) == Merge(less, x, y) + r;
    assert p + (Merge(less, x, y) + r) == (p + Merge(less, x, y)) + r;
    assert p0 + (m + r) == (p0 + m) + r;
  }

  lemma TakeLeft(less: (Elem, Elem) -> bool, p: seq<Elem>, x: seq<Elem>, y: seq<Elem>)
    requires x != [] && y != [] && !less(y[0], x[0])
    ensures (p + [x[0]]) + Merge(less, x[1..], y) == p + Merge(less, x, y)
  {
    var m := Merge(less, x[1..], y);
    assert Merge(less, x, y) == [x[0]] + m;
    assert (p + [x[0]]) + m == p + ([x[0]] + m);
  }

  lemma TakeRight(less: (Elem, Elem) -> bool, p: seq<Elem>, x: seq<Elem>, y: seq<Elem>)
    requires x != [] && y != [] && less(y[0], x[0])
    ensures (p + [y[0]]) + Merge(less, x, y[1..]) == p + Merge(less, x, y)
  {
    var m := Merge(less, x, y[1..]);
    assert Merge(less, x, y) == [y[0]] + m;
    assert (p + [y[0]]) + m == p + ([y[0]] + m);
  }

  // The two loop tests compare positions: equal elements mean an empty range.
  lemma Ends(p: seq<Elem>, x: seq<Elem>, y: seq<Elem>, r: seq<Elem>)
    requires r != [] && Chain(p + (x + (y + r)))
    ensures (x + (y + r))[0] == (y + r)[0] <==> x == []
    ensures (y + r)[0] == r[0] <==> y == []
  {
    var s := p + (x + (y + r));
    assert s[|p|] == (x + (y + r))[0] && s[|p| + |x|] == (y + r)[0] && s[|p| + |x| + |y|] == r[0];
  }

  // The first two runs of s merged, and what comes after them.
  ghost function FirstPair(less: (Elem, Elem) -> bool, s: seq<Elem>): seq<Elem>
    requires s != [] && RunLength(less, s) < |s|
  {
    var n := RunLength(less, s);
    Merge(less, s[..n], s[n..][..RunLength(less, s[n..])])
  }

  ghost function AfterPair(less: (Elem, Elem) -> bool, s: seq<Elem>): (t: seq<Elem>)
    requires s != [] && RunLength(less, s) < |s|
    ensures |t| < |s|
  {
    var n := RunLength(less, s);
    s[n..][RunLength(less, s[n..])..]
  }

  // The end marker is met exactly when nothing is left.
  lemma AtTail(p: seq<Elem>, s: seq<Elem>, tail: Elem)
    requires Chain(p + (s + [tail]))
    ensures (s + [tail])[0] == tail <==> s == []
  {
    var all := p + (s + [tail]);
    assert all[|p|] == (s + [tail])[0] && all[|p| + |s|] == tail;
  }

  // What reaching the end marker after the first run means.
  lemma RunEnd(less: (Elem, Elem) -> bool, p: seq<Elem>, s: seq<Elem>, tail: Elem)
    requires s != [] && Chain(p + (s + [tail]))
    ensures (s[RunLength(less, s)..] + [tail])[0] == tail <==> RunLength(less, s) == |s|
    ensures RunLength(less, s) == |s| ==> Pass(less, s) == s && PassRuns(less, s) == 1 && Pass(less, []) == [] && PassRuns(less, []) == 0
    ensures p + (s + [tail]) == (p + s) + ([] + [tail])
    ensures (p + s) + [] == p + s
  {
    var n := RunLength(less, s);
    Split(p, s, n, tail);
    AtTail(p + s[..n], s[n..], tail);
    if n == |s| {
      PassOfRun(less, s);
    }
  }

  lemma Split(p: seq<Elem>, s: seq<Elem>, n: nat, tail: Elem)
    requires n <= |s|
    ensures p + (s + [tail]) == (p + s[..n]) + (s[n..] + [tail])
    ensures p + (s + [tail]) == (p + s) + ([] + [tail])
    ensures (p + s) + [] == p + s
    ensures s[n..] == [] <==> n == |s|
  {
  }

  lemma PassAdvance(less: (Elem, Elem) -> bool, p: seq<Elem>, s: seq<Elem>)
    requires s != [] && RunLength(less, s) < |s|
    ensures (p + FirstPair(less, s)) + Pass(less, AfterPair(less, s)) == p + Pass(less, s)
    ensures PassRuns(less, s) == 1 + PassRuns(less, AfterPair(less, s))
  {
    var n := RunLength(less, s);
    PassUnfold(less, s, n, RunLength(less, s[n..]));
    Assoc(p, FirstPair(less, s), Pass(less, AfterPair(less, s)));
  }

  lemma TwoRuns(p: seq<Elem>, s: seq<Elem>, n: nat, k: nat, tail: Elem)
    requires n <= |s| && k <= |s[n..]|
    ensures p + (s[..n] + (s[n..][..k] + (s[n..][k..] + [tail]))) == p + (s + [tail])
    ensures (p + s[..n]) + (s[n..] + [tail]) == p + (s + [tail])
  {
    assert s == s[..n] + (s[n..][..k] + s[n..][k..]);
  }

  // Finds the second run and merges it with the first.
  method MergeRuns(a0: Elem, a1b0: Elem, tail: Elem, less: (Elem, Elem) -> bool, ghost p: seq<Elem>, ghost s: seq<Elem>)
    returns (b1: Elem)
    requires p != [] && s != [] && RunLength(less, s) < |s|
    requires Chain(p + (s + [tail]))
    requires a0 == s[0] && a1b0 == s[RunLength(less, s)]
    modifies Nodes(p + (s + [tail]))
    ensures Chain((p + FirstPair(less, s)) + (AfterPair(less, s) + [tail]))
    ensures Nodes((p + FirstPair(less, s)) + (AfterPair(less, s) + [tail])) == Nodes(p + (s + [tail]))
    ensures b1 == (AfterPair(less, s) + [tail])[0]
    ensures AfterPair(less, s) != [] ==> b1 != tail
  {
    ghost var n := RunLength(less, s);
    ghost var k := RunLength(less, s[n..]);
    ghost var a, b, rest := s[..n], s[n..][..k], s[n..][k..];
    TwoRuns(p, s, n, k, tail);
    b1 := FindEndOfRun(a1b0, tail, less, p + a, s[n..], [tail]);
    InplaceMerge(a0, a1b0, b1, less, p, a, b, rest + [tail]);
    MergedNodes(less, p, a, b, rest + [tail]);
    assert (p + FirstPair(less, s)) + (rest + [tail]) == p + (FirstPair(less, s) + (rest + [tail]));
    AtTail(p + FirstPair(less, s), rest, tail);
  }

  lemma SameClassesRefl(less: (Elem, Elem) -> bool, s: seq<Elem>)
    ensures SameClasses(less, s, s)
  {
  }

  // What a pass achieves: fewer runs if it counted several, a sorted list if it counted one.
  lemma PassProgress(less: (Elem, Elem) -> bool, original: seq<Elem>, s: seq<Elem>, t: seq<Elem>)
    requires StrictWeak(less, s) && SameClasses(less, original, s)
    requires t == Pass(less, s)
    ensures SameClasses(less, original, t)
    ensures Passes(Runs(less, s)) >= 1
    ensures PassRuns(less, s) > 1 ==> Runs(less, t) < Runs(less, s) && 1 + Passes(Runs(less, t)) <= Passes(Runs(less, s))
    ensures PassRuns(less, s) <= 1 ==> Sorted(less, t)
  {
    PassHalvesRuns(less, s);
    PassKeepsClasses(less, s);
    SameClassesTrans(less, original, s, t);
    if PassRuns(less, s) > 1 {
      PassesMonotone(Runs(less, t), (Runs(less, s) + 1) / 2);
    } else {
      SameElements(s, t);
      StrictWeakSame(less, s, t);
      OneRunSorted(less, t);
    }
  }

  lemma AllSorted(done: seq<Elem>, rest: seq<Elem>, t: seq<Elem>, head: Elem, elems: seq<Elem>, tail: Elem)
    requires rest == t == [] && done + t == [head] + elems
    ensures done + (rest + [tail]) == [head] + (elems + [tail])
  {
    assert done + (rest + [tail]) == (done + t) + [tail];
  }

  lemma MergedNodes(less: (Elem, Elem) -> bool, p: seq<Elem>, a: seq<Elem>, b: seq<Elem>, r: seq<Elem>)
    ensures Nodes(p + (Merge(less, a, b) + r)) == Nodes(p + (a + (b + r)))
  {
    MergeElements(less, a, b);
    SameNodes(p, Merge(less, a, b), a, b, r);
  }

  lemma SameNodes(p: seq<Elem>, m: seq<Elem>, a: seq<Elem>, b: seq<Elem>, r: seq<Elem>)
    requires multiset(m) == multiset(a) + multiset(b)
    ensures Nodes(p + (m + r)) == Nodes(p + (a + (b + r)))
  {
    forall e
      ensures e in m <==> e in a || e in b
    {
      assert e in m <==> e in multiset(m);
      assert e in a <==> e in multiset(a);
      assert e in b <==> e in multiset(b);
    }
  }
}
