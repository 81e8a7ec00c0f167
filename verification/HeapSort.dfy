/**
 sort and binary_search of the kernel's C library: heap sort of an array of cnt elements
 of size bytes each, in place, by a caller's comparison function. Heap indexes are
 1-based, as in the code: the children of i are 2 * i and 2 * i + 1.
 */
module HeapSort {
  type Byte = b: int | 0 <= b < 256

  /* ----- comparison functions ----- */

  /** What the callers must pass: a strcmp-like result that orders the elements of s, ties allowed. */
  ghost predicate TotalPreorder<T>(s: seq<T>, cmp: (T, T) -> int) {
    && (forall a, b | a in s && b in s :: cmp(a, b) > 0 <==> cmp(b, a) < 0)
    && (forall a, b, c | a in s && b in s && c in s :: cmp(a, b) >= 0 && cmp(b, c) >= 0 ==> cmp(a, c) >= 0)
  }

  // It orders every rearrangement of them.
  lemma StillOrdered<T>(s: seq<T>, r: seq<T>, cmp: (T, T) -> int)
    requires TotalPreorder(s, cmp) && multiset(r) == multiset(s)
    ensures TotalPreorder(r, cmp)
  {
    forall x | x in r
      ensures x in s
    {
      assert x in multiset(r);
      assert x in multiset(s);
    }
  }

  /** In order from position lo on. */
  ghost predicate SortedFrom<T>(s: seq<T>, lo: nat, cmp: (T, T) -> int) {
    forall i, j | lo <= i < j < |s| :: cmp(s[j], s[i]) >= 0
  }

  /* ----- one heap operation as a function on sequences ----- */

  function Swap<T>(s: seq<T>, i: nat, j: nat): (r: seq<T>)
    requires 1 <= i <= |s| && 1 <= j <= |s|
    ensures |r| == |s|
  {
    s[i - 1 := s[j - 1]][j - 1 := s[i - 1]]
  }

  // The index of the largest element among i and its children.
  function Largest<T>(s: seq<T>, i: nat, cnt: nat, cmp: (T, T) -> int): (max: nat)
    requires 1 <= i <= cnt <= |s|
    ensures max == i || (max / 2 == i && i < max <= cnt)
  {
    var max := if 2 * i <= cnt && cmp(s[2 * i - 1], s[i - 1]) > 0 then 2 * i else i;
    if 2 * i + 1 <= cnt && cmp(s[2 * i], s[max - 1]) > 0 then 2 * i + 1 else max
  }

  /** Element i floats down until no child is larger. */
  function Sift<T>(s: seq<T>, i: nat, cnt: nat, cmp: (T, T) -> int): (r: seq<T>)
    requires 1 <= i <= cnt <= |s|
    ensures |r| == |s|
    decreases cnt - i
  {
    var max := Largest(s, i, cnt, cmp);
    if max == i then s else Sift(Swap(s, i, max), max, cnt, cmp)
  }

  /* ----- the heap invariant ----- */

  /** Every element among the first cnt whose parent is at lo or later is no larger than its parent. */
  ghost predicate HeapFrom<T>(s: seq<T>, lo: nat, cnt: nat, cmp: (T, T) -> int)
    requires cnt <= |s|
  {
    forall c | 2 <= c <= cnt && lo <= c / 2 :: cmp(s[c / 2 - 1], s[c - 1]) >= 0
  }

  // The same, but the element at i may be too small; its children fit below its parent.
  ghost predicate HeapBut<T>(s: seq<T>, lo: nat, i: nat, cnt: nat, cmp: (T, T) -> int)
    requires cnt <= |s|
  {
    && (forall c | 2 <= c <= cnt && lo <= c / 2 && c / 2 != i :: cmp(s[c / 2 - 1], s[c - 1]) >= 0)
    && (forall c | 4 <= c <= cnt && c / 2 == i && lo <= i / 2 :: cmp(s[i / 2 - 1], s[c - 1]) >= 0)
  }

  // The larger child moves up.
  lemma SwapDown<T>(s: seq<T>, lo: nat, i: nat, cnt: nat, cmp: (T, T) -> int)
    requires TotalPreorder(s, cmp) && 1 <= lo <= i <= cnt <= |s| && HeapBut(s, lo, i, cnt, cmp)
    requires Largest(s, i, cnt, cmp) != i
    ensures var max := Largest(s, i, cnt, cmp); HeapBut(Swap(s, i, max), lo, max, cnt, cmp)
  {
    var max := Largest(s, i, cnt, cmp);
    var r := Swap(s, i, max);
    forall c | 2 <= c <= cnt && lo <= c / 2 && c / 2 != max
      ensures cmp(r[c / 2 - 1], r[c - 1]) >= 0
    {
      SwapDownAt(s, lo, i, cnt, cmp, c);
    }
    hide TotalPreorder, Largest;
    forall c | 4 <= c <= cnt && c / 2 == max
      ensures cmp(r[i - 1], r[c - 1]) >= 0
    {
      assert r[i - 1] == s[max - 1] && r[c - 1] == s[c - 1];
    }
  }

  lemma SwapDownAt<T>(s: seq<T>, lo: nat, i: nat, cnt: nat, cmp: (T, T) -> int, c: nat)
    requires TotalPreorder(s, cmp) && 1 <= lo <= i <= cnt <= |s| && HeapBut(s, lo, i, cnt, cmp)
    requires Largest(s, i, cnt, cmp) != i
    requires 2 <= c <= cnt && lo <= c / 2 && c / 2 != Largest(s, i, cnt, cmp)
    ensures var r := Swap(s, i, Largest(s, i, cnt, cmp)); cmp(r[c / 2 - 1], r[c - 1]) >= 0
  {
    hide Largest, TotalPreorder;
    var max := Largest(s, i, cnt, cmp);
    if c / 2 == i {
      LargestIsLargest(s, i, cnt, cmp, if c == max then i else c);
    } else if c == i {
      assert cmp(s[i / 2 - 1], s[max - 1]) >= 0;
    }
  }

  lemma LargestIsLargest<T>(s: seq<T>, i: nat, cnt: nat, cmp: (T, T) -> int, c: nat)
    requires TotalPreorder(s, cmp) && 1 <= i <= cnt <= |s| && i <= c <= cnt && (c == i || c / 2 == i)
    ensures cmp(s[Largest(s, i, cnt, cmp) - 1], s[c - 1]) >= 0
  {
    assert c == i || c == 2 * i || c == 2 * i + 1;
    assert forall x | x in s :: cmp(x, x) >= 0;
  }

  /** Floating down one element restores the heap. */
  lemma {:induction false} SiftRestores<T>(s: seq<T>, lo: nat, i: nat, cnt: nat, cmp: (T, T) -> int)
    requires TotalPreorder(s, cmp) && 1 <= lo <= i <= cnt <= |s| && HeapBut(s, lo, i, cnt, cmp)
    ensures HeapFrom(Sift(s, i, cnt, cmp), lo, cnt, cmp)
    decreases cnt - i
  {
    var max := Largest(s, i, cnt, cmp);
    if max == i {
      forall c | 2 <= c <= cnt && lo <= c / 2
        ensures cmp(s[c / 2 - 1], s[c - 1]) >= 0
      {
        if c / 2 == i {
          LargestIsLargest(s, i, cnt, cmp, c);
        }
      }
    } else {
      SwapDown(s, lo, i, cnt, cmp);
      SwapMultiset(s, i, max);
      StillOrdered(s, Swap(s, i, max), cmp);
      SiftRestores(Swap(s, i, max), lo, max, cnt, cmp);
    }
  }

  lemma SwapMultiset<T>(s: seq<T>, i: nat, j: nat)
    requires 1 <= i <= |s| && 1 <= j <= |s|
    ensures multiset(Swap(s, i, j)) == multiset(s)
  {
  }

  /** Floating down rearranges the first cnt elements and leaves the others. */
  lemma {:induction false} SiftPermutes<T>(s: seq<T>, i: nat, cnt: nat, cmp: (T, T) -> int)
    requires 1 <= i <= cnt <= |s|
    ensures multiset(Sift(s, i, cnt, cmp)[..cnt]) == multiset(s[..cnt])
    ensures Sift(s, i, cnt, cmp)[cnt..] == s[cnt..]
    decreases cnt - i
  {
    var max := Largest(s, i, cnt, cmp);
    if max != i {
      assert Swap(s, i, max)[..cnt] == Swap(s[..cnt], i, max);
      SwapMultiset(s[..cnt], i, max);
      SiftPermutes(Swap(s, i, max), max, cnt, cmp);
    }
  }

  /** The root of a heap is its largest element. */
  lemma {:induction false} RootIsLargest<T>(s: seq<T>, cnt: nat, cmp: (T, T) -> int, c: nat)
    requires TotalPreorder(s, cmp) && 1 <= c <= cnt <= |s| && HeapFrom(s, 1, cnt, cmp)
    ensures cmp(s[0], s[c - 1]) >= 0
  {
    if c > 1 {
      RootIsLargest(s, cnt, cmp, c / 2);
    } else {
      assert cmp(s[0], s[0]) >= 0;
    }
  }

  /* ----- the two phases of sort ----- */

  // During the second phase: the first cnt elements form a heap, the others are the largest, in order.
  ghost predicate Extracted<T>(s: seq<T>, cnt: nat, cmp: (T, T) -> int)
    requires cnt <= |s|
  {
    && HeapFrom(s, 1, cnt, cmp)
    && SortedFrom(s, cnt, cmp)
    && forall i, j | 0 <= i < cnt <= j < |s| :: cmp(s[j], s[i]) >= 0
  }

  // One round of the first phase.
  lemma HeapGrows<T>(s: seq<T>, i: nat, cmp: (T, T) -> int)
    requires TotalPreorder(s, cmp) && 1 <= i <= |s| && HeapFrom(s, i + 1, |s|, cmp)
    ensures HeapFrom(Sift(s, i, |s|, cmp), i, |s|, cmp)
    ensures multiset(Sift(s, i, |s|, cmp)) == multiset(s)
  {
    assert HeapBut(s, i, i, |s|, cmp);
    SiftRestores(s, i, i, |s|, cmp);
    SiftPermutes(s, i, |s|, cmp);
    var r := Sift(s, i, |s|, cmp);
    assert r[..|s|] == r && s[..|s|] == s;
  }

  // The second half of an array has no children.
  lemma NoParents<T>(s: seq<T>, cmp: (T, T) -> int)
    ensures HeapFrom(s, |s| / 2 + 1, |s|, cmp)
  {
  }

  // Between the phases the whole array is a heap.
  lemma AllHeap<T>(s: seq<T>, cmp: (T, T) -> int)
    requires HeapFrom(s, 1, |s|, cmp)
    ensures Extracted(s, |s|, cmp)
  {
  }

  // A heap of at most one element leaves nothing to do.
  lemma AllExtracted<T>(s: seq<T>, i: nat, cmp: (T, T) -> int)
    requires i <= 1 && i <= |s| && Extracted(s, i, cmp)
    ensures SortedFrom(s, 0, cmp)
  {
  }

  // A bound on the elements of a prefix holds for every rearrangement of it.
  lemma BoundOfMultiset<T>(s: seq<T>, r: seq<T>, cmp: (T, T) -> int, x: T)
    requires multiset(s) == multiset(r) && forall y | y in s :: cmp(x, y) >= 0
    ensures forall y | y in r :: cmp(x, y) >= 0
  {
    forall y | y in r
      ensures cmp(x, y) >= 0
    {
      assert y in multiset(r);
      assert y in multiset(s);
    }
  }

  // One round of the second phase: the root goes to the end of the heap, which shrinks by one.
  lemma RootExtracted<T>(s: seq<T>, i: nat, cmp: (T, T) -> int)
    requires TotalPreorder(s, cmp) && 2 <= i <= |s| && Extracted(s, i, cmp)
    ensures var r := Sift(Swap(s, 1, i), 1, i - 1, cmp); Extracted(r, i - 1, cmp) && multiset(r) == multiset(s)
  {
    hide TotalPreorder, SortedFrom, Sift;
    var t := Swap(s, 1, i);
    var r := Sift(t, 1, i - 1, cmp);
    assert HeapBut(t, 1, 1, i - 1, cmp);
    hide HeapFrom, Swap;
    SwapMultiset(s, 1, i);
    StillOrdered(s, t, cmp);
    SiftRestores(t, 1, 1, i - 1, cmp);
    SiftPermutes(t, 1, i - 1, cmp);
    SwappedOrder(s, i, cmp);
    hide HeapBut;
    OrderMoves(t, r, i - 1, cmp);
  }

  // The order of the elements from n on survives a rearrangement of those before.
  lemma OrderMoves<T>(t: seq<T>, r: seq<T>, n: nat, cmp: (T, T) -> int)
    requires n <= |t| == |r| && multiset(r[..n]) == multiset(t[..n]) && r[n..] == t[n..]
    requires SortedFrom(t, n, cmp) && forall j | n <= j < |t| :: forall y | y in t[..n] :: cmp(t[j], y) >= 0
    ensures multiset(r) == multiset(t) && SortedFrom(r, n, cmp)
    ensures forall i, j | 0 <= i < n <= j < |r| :: cmp(r[j], r[i]) >= 0
  {
    assert r == r[..n] + r[n..] && t == t[..n] + t[n..];
    forall j | n <= j < |t|
      ensures r[j] == t[j]
    {
      assert r[n..][j - n] == t[n..][j - n];
    }
    forall i, j | 0 <= i < n <= j < |r|
      ensures cmp(r[j], r[i]) >= 0
    {
      BoundOfMultiset(t[..n], r[..n], cmp, t[j]);
      assert r[..n][i] in r[..n];
    }
  }

  // After the swap the elements from i - 1 on are in order and no smaller than those before.
  lemma SwappedOrder<T>(s: seq<T>, i: nat, cmp: (T, T) -> int)
    requires TotalPreorder(s, cmp) && 2 <= i <= |s| && Extracted(s, i, cmp)
    ensures var t := Swap(s, 1, i);
      && SortedFrom(t, i - 1, cmp)
      && forall j | i - 1 <= j < |s| :: forall y | y in t[..i - 1] :: cmp(t[j], y) >= 0
  {
    hide TotalPreorder, HeapFrom;
    var t := Swap(s, 1, i);
    forall j, y | i - 1 <= j < |s| && y in t[..i - 1]
      ensures cmp(t[j], y) >= 0
    {
      var k :| 0 <= k < i - 1 && t[k] == y;
      RootIsLargest(s, i, cmp, i);
      RootIsLargest(s, i, cmp, k + 1);
      assert j >= i ==> t[j] == s[j];
    }
  }

  /* ----- arrays of elements ----- */

  /** The cnt elements of size bytes each that m holds. */
  function Elems(m: seq<Byte>, cnt: nat, size: nat): (s: seq<seq<Byte>>)
    requires |m| == cnt * size
    ensures |s| == cnt
  {
    seq(cnt, k requires 0 <= k < cnt => Elem(m, cnt, size, k))
  }

  function Elem(m: seq<Byte>, cnt: nat, size: nat, k: nat): (e: seq<Byte>)
    requires |m| == cnt * size && k < cnt
    ensures |e| == size
  {
    Within(cnt, size, k);
    m[k * size..k * size + size]
  }

  lemma Within(cnt: nat, size: nat, k: nat)
    requires k < cnt
    ensures k * size + size == (k + 1) * size <= cnt * size
  {
    Grows(k + 1, cnt, size);
  }

  lemma Grows(a: nat, b: nat, size: nat)
    requires a <= b
    ensures a * size <= b * size
  {
  }

  /** do_swap: exchanges elements i and j byte by byte. */
  method DoSwap(a: array<Byte>, i: nat, j: nat, size: nat, ghost cnt: nat)
    requires a.Length == cnt * size && 1 <= i <= cnt && 1 <= j <= cnt && size > 0
    modifies a
    ensures Elems(a[..], cnt, size) == Swap(old(Elems(a[..], cnt, size)), i, j)
  {
    ghost var m := a[..];
    Within(cnt, size, i - 1);
    Within(cnt, size, j - 1);
    var x, y := (i - 1) * size, (j - 1) * size;
    Apart(i - 1, j - 1, size);
    for k := 0 to size
      invariant a[..] == Exchanged(m, x, y, k)
    {
      ExchangeNext(m, a[..], x, y, k);
      a[x + k], a[y + k] := a[y + k], a[x + k];
    }
    ExchangedElems(m, cnt, size, i, j, x, y);
  }

  lemma Apart(i: nat, j: nat, size: nat)
    ensures i == j || i * size + size <= j * size || j * size + size <= i * size
  {
    if i < j {
      Within(j, size, i);
    } else if j < i {
      Within(i, size, j);
    }
  }

  // The first k bytes at x and y have changed places.
  function Exchanged(m: seq<Byte>, x: nat, y: nat, k: nat): (r: seq<Byte>)
    requires x + k <= |m| && y + k <= |m|
    ensures |r| == |m|
  {
    seq(|m|, p requires 0 <= p < |m| => if x <= p < x + k then m[y + p - x] else if y <= p < y + k then m[x + p - y] else m[p])
  }

  lemma ExchangeNext(m: seq<Byte>, c: seq<Byte>, x: nat, y: nat, k: nat)
    requires x + k < |m| && y + k < |m| && (x == y || x + k < y || y + k < x)
    requires c == Exchanged(m, x, y, k)
    ensures c[x + k := c[y + k]][y + k := c[x + k]] == Exchanged(m, x, y, k + 1)
  {
  }

  lemma ExchangedAt(m: seq<Byte>, x: nat, y: nat, k: nat, p: nat)
    requires x + k <= |m| && y + k <= |m| && p < |m|
    ensures Exchanged(m, x, y, k)[p] == if x <= p < x + k then m[y + p - x] else if y <= p < y + k then m[x + p - y] else m[p]
  {
  }

  lemma ExchangedSlice(m: seq<Byte>, x: nat, y: nat, size: nat, p: nat)
    requires x + size <= |m| && y + size <= |m| && p + size <= |m|
    requires x == y || x + size <= y || y + size <= x
    requires p == x || p + size <= x || x + size <= p
    requires p == y || p + size <= y || y + size <= p
    ensures Exchanged(m, x, y, size)[p..p + size] ==
      if p == x then m[y..y + size] else if p == y then m[x..x + size] else m[p..p + size]
  {
    hide Exchanged;
    var q := if p == x then y else if p == y then x else p;
    var r := Exchanged(m, x, y, size);
    var e, f := r[p..p + size], m[q..q + size];
    forall k | 0 <= k < size
      ensures e[k] == f[k]
    {
      ExchangedAt(m, x, y, size, p + k);
    }
    assert e == f;
  }

  lemma ExchangedElems(m: seq<Byte>, cnt: nat, size: nat, i: nat, j: nat, x: nat, y: nat)
    requires |m| == cnt * size && 1 <= i <= cnt && 1 <= j <= cnt && size > 0
    requires x == (i - 1) * size && y == (j - 1) * size && x + size <= |m| && y + size <= |m|
    ensures Elems(Exchanged(m, x, y, size), cnt, size) == Swap(Elems(m, cnt, size), i, j)
  {
    hide Exchanged, Elem;
    var e := Elems(Exchanged(m, x, y, size), cnt, size);
    var t := Swap(Elems(m, cnt, size), i, j);
    forall k | 0 <= k < cnt
      ensures e[k] == t[k]
    {
      ExchangedElem(m, cnt, size, i, j, k, x, y);
    }
    assert e == t;
  }

  lemma ExchangedElem(m: seq<Byte>, cnt: nat, size: nat, i: nat, j: nat, k: nat, x: nat, y: nat)
    requires |m| == cnt * size && 1 <= i <= cnt && 1 <= j <= cnt && size > 0 && k < cnt
    requires x == (i - 1) * size && y == (j - 1) * size && x + size <= |m| && y + size <= |m|
    ensures Elem(Exchanged(m, x, y, size), cnt, size, k) ==
      if k == i - 1 then Elem(m, cnt, size, j - 1) else if k == j - 1 then Elem(m, cnt, size, i - 1) else Elem(m, cnt, size, k)
  {
    hide Exchanged, Elem;
    var p := k * size;
    Apart(i - 1, j - 1, size);
    Apart(k, i - 1, size);
    Apart(k, j - 1, size);
    ElemAt(m, cnt, size, k);
    ElemAt(m, cnt, size, i - 1);
    ElemAt(m, cnt, size, j - 1);
    ElemAt(Exchanged(m, x, y, size), cnt, size, k);
    SamePlace(k, i - 1, size);
    SamePlace(k, j - 1, size);
    ExchangedSlice(m, x, y, size, p);
  }

  lemma ElemAt(m: seq<Byte>, cnt: nat, size: nat, k: nat)
    requires |m| == cnt * size && k < cnt
    ensures k * size + size <= |m| && Elem(m, cnt, size, k) == m[k * size..k * size + size]
  {
    Within(cnt, size, k);
  }

  // Distinct elements start at distinct places.
  lemma SamePlace(k: nat, i: nat, size: nat)
    requires size > 0
    ensures k * size == i * size <==> k == i
  {
    Apart(k, i, size);
    if k < i {
      Within(i, size, k);
    } else if i < k {
      Within(k, size, i);
    }
  }

  // do_compare on elements i and j.
  method DoCompare(a: array<Byte>, i: nat, j: nat, size: nat, cmp: (seq<Byte>, seq<Byte>) -> int, ghost cnt: nat) returns (r: int)
    requires a.Length == cnt * size && 1 <= i <= cnt && 1 <= j <= cnt
    ensures r == cmp(Elems(a[..], cnt, size)[i - 1], Elems(a[..], cnt, size)[j - 1])
  {
    Within(cnt, size, i - 1);
    Within(cnt, size, j - 1);
    r := cmp(a[(i - 1) * size..(i - 1) * size + size], a[(j - 1) * size..(j - 1) * size + size]);
  }

  /** heapify on the first cnt of the n elements in a. */
  method Heapify(a: array<Byte>, start: nat, cnt: nat, size: nat, cmp: (seq<Byte>, seq<Byte>) -> int, ghost n: nat)
    requires a.Length == n * size && 1 <= start <= cnt <= n && size > 0
    modifies a
    ensures Elems(a[..], n, size) == Sift(old(Elems(a[..], n, size)), start, cnt, cmp)
  {
    hide Elems, Swap;
    var i := start;
    ghost var s0 := Elems(a[..], n, size);
    while true
      invariant 1 <= i <= cnt
      invariant Sift(Elems(a[..], n, size), i, cnt, cmp) == Sift(s0, start, cnt, cmp)
      decreases cnt - i
    {
      ghost var s := Elems(a[..], n, size);
      var left := 2 * i;
      var right := 2 * i + 1;
      var max := i;
      if left <= cnt {
        var c := DoCompare(a, left, max, size, cmp, n);
        if c > 0 {
          max := left;
        }
      }
      if right <= cnt {
        var c := DoCompare(a, right, max, size, cmp, n);
        if c > 0 {
          max := right;
        }
      }
      assert max == Largest(s, i, cnt, cmp);
      if max == i {
        break;
      }
      DoSwap(a, i, max, size, n);
      i := max;
    }
  }

  /** sort: the same elements, in order. */
  method Sort(a: array<Byte>, cnt: nat, size: nat, cmp: (seq<Byte>, seq<Byte>) -> int)
    requires a.Length == cnt * size && size > 0 && TotalPreorder(Elems(a[..], cnt, size), cmp)
    modifies a
    ensures SortedFrom(Elems(a[..], cnt, size), 0, cmp)
    ensures multiset(Elems(a[..], cnt, size)) == multiset(old(Elems(a[..], cnt, size)))
  {
    hide TotalPreorder, SortedFrom, HeapFrom, Extracted, Sift, Swap, Elems;
    ghost var s0 := Elems(a[..], cnt, size);
    var i := cnt / 2;
    NoParents(s0, cmp);
    while i > 0
      invariant 0 <= i <= cnt / 2
      invariant HeapFrom(Elems(a[..], cnt, size), i + 1, cnt, cmp)
      invariant multiset(Elems(a[..], cnt, size)) == multiset(s0)
    {
      StillOrdered(s0, Elems(a[..], cnt, size), cmp);
      HeapGrows(Elems(a[..], cnt, size), i, cmp);
      Heapify(a, i, cnt, size, cmp, cnt);
      i := i - 1;
    }
    i := cnt;
    AllHeap(Elems(a[..], cnt, size), cmp);
    while i > 1
      invariant 0 <= i <= cnt && (i == 0 ==> cnt == 0)
      invariant Extracted(Elems(a[..], cnt, size), i, cmp)
      invariant multiset(Elems(a[..], cnt, size)) == multiset(s0)
    {
      StillOrdered(s0, Elems(a[..], cnt, size), cmp);
      RootExtracted(Elems(a[..], cnt, size), i, cmp);
      DoSwap(a, 1, i, size, cnt);
      Heapify(a, 1, i - 1, size, cmp, cnt);
      i := i - 1;
    }
    AllExtracted(Elems(a[..], cnt, size), i, cmp);
  }

  /* ----- binary_search ----- */

  datatype Option<T> = None | Some(value: T)

  // Everything on the far side of a probe can be ruled out.
  lemma Discarded<T>(s: seq<T>, key: T, cmp: (T, T) -> int, mid: nat, k: nat)
    requires TotalPreorder([key] + s, cmp) && SortedFrom(s, 0, cmp) && mid < |s| && k < |s|
    requires (k <= mid && cmp(key, s[mid]) > 0) || (k >= mid && cmp(key, s[mid]) < 0)
    ensures cmp(key, s[k]) != 0
  {
    var t := [key] + s;
    assert t[0] == key && t[mid + 1] == s[mid] && t[k + 1] == s[k];
    assert key in t && s[mid] in t && s[k] in t;
  }

  // What the pointer arithmetic of a probe comes to.
  lemma Probe(f: nat, l: nat, size: nat)
    requires f < l && size > 0
    ensures (l * size - f * size) / size == l - f
    ensures f * size + (l - f) / 2 * size == (f + (l - f) / 2) * size
    ensures (f + (l - f) / 2) * size + size == (f + (l - f) / 2 + 1) * size
  {
    assert l * size - f * size == (l - f) * size;
    Cancel(l - f, size);
  }

  lemma SameOrder(f: nat, l: nat, size: nat)
    requires f <= l && size > 0
    ensures f * size < l * size <==> f < l
  {
    if f < l {
      Within(l, size, f);
    }
  }

  lemma Cancel(n: nat, size: nat)
    requires size > 0
    ensures n * size / size == n
  {
    var q := n * size / size;
    if q < n {
      Grows(q + 1, n, size);
    } else if q > n {
      Grows(n + 1, q, size);
    }
  }

  /** binary_search: the offset of an element that equals key, or None exactly when there is none. */
  method BinarySearch(key: seq<Byte>, a: array<Byte>, cnt: nat, size: nat, cmp: (seq<Byte>, seq<Byte>) -> int)
    returns (r: Option<nat>)
    requires a.Length == cnt * size && size > 0 && TotalPreorder([key] + Elems(a[..], cnt, size), cmp) && SortedFrom(Elems(a[..], cnt, size), 0, cmp)
    ensures r.Some? ==> exists k :: 0 <= k < cnt && r.value == k * size && cmp(key, Elems(a[..], cnt, size)[k]) == 0
    ensures r.None? <==> forall k | 0 <= k < cnt :: cmp(key, Elems(a[..], cnt, size)[k]) != 0
  {
    hide TotalPreorder, SortedFrom, Elem;
    ghost var s := Elems(a[..], cnt, size);
    var first, last := 0, size * cnt;
    ghost var f, l := 0, cnt;
    SameOrder(f, l, size);
    while first < last
      invariant 0 <= f <= l <= cnt && first == f * size && last == l * size && (first < last <==> f < l)
      invariant forall k | 0 <= k < f || l <= k < cnt :: cmp(key, s[k]) != 0
      decreases l - f
    {
      Probe(f, l, size);
      var range := (last - first) / size;
      var middle := first + range / 2 * size;
      ghost var m := f + (l - f) / 2;
      ElemAt(a[..], cnt, size, m);
      var c := cmp(key, a[middle..middle + size]);
      assert a[..][m * size..m * size + size] == a[middle..middle + size];
      assert s[m] == a[middle..middle + size];
      if c < 0 {
        forall k | m <= k < cnt ensures cmp(key, s[k]) != 0 { Discarded(s, key, cmp, m, k); }
        last, l := middle, m;
      } else if c > 0 {
        forall k | 0 <= k <= m ensures cmp(key, s[k]) != 0 { Discarded(s, key, cmp, m, k); }
        first, f := middle + size, m + 1;
      } else {
        return Some(middle);
      }
      SameOrder(f, l, size);
    }
    r := None;
  }
}
