/**
 The doubly linked lists of utlist.h: no sentinels, the head's prev is the tail, the
 tail's next is null. Append, delete and the bottom-up merge sort.
 */
module UtList {
  import opened Order
  import opened LinkedList

  /** `head` is a list of the elements of s. */
  ghost predicate Dl(head: Elem?, s: seq<Elem>)
    reads s
  {
    if s == [] then head == null
    else head == s[0] && Linked(s) && Distinct(s) && s[0].prev == Last(s) && Last(s).next == null
  }

  /** DL_APPEND2. */
  method Append(head: Elem?, add: Elem, ghost s: seq<Elem>) returns (head': Elem)
    requires Dl(head, s) && add !in s
    modifies Nodes(s), add
    ensures Dl(head', s + [add])
  {
    if head != null {
      head' := head;
      assert Linked([add]);
      DistinctConcat(s, [add]);
      add.prev := head.prev;
      head.prev.next := add;
      head.prev := add;
      add.next := null;
      ghost var t := s + [add];
      forall i {:trigger t[i].next} | 0 <= i < |t| - 1 ensures t[i].next == t[i + 1] {
        if i < |s| - 1 { assert s[i].next == s[i + 1]; }
      }
      forall i {:trigger t[i].prev} | 1 <= i < |t| ensures t[i].prev == t[i - 1] {
        if i < |s| { assert s[i].prev == s[i - 1]; }
      }
    } else {
      head' := add;
      head'.prev := head';
      head'.next := null;
    }
  }

  /** DL_DELETE2 on element k. */
  method Delete(head: Elem?, del: Elem, ghost s: seq<Elem>, ghost k: nat) returns (head': Elem?)
    requires Dl(head, s) && k < |s| && del == s[k]
    modifies Nodes(s)
    ensures Dl(head', s[..k] + s[k + 1..])
  {
    head' := head;
    DeleteLinks(s, k);
    if del.prev == del {
      head' := null;
      assert |s| == 1;
    } else if del == head {
      del.next.prev := del.prev;
      head' := del.next;
    } else {
      del.prev.next := del.next;
      if del.next != null {
        del.next.prev := del.prev;
      } else {
        head.prev := del.prev;
      }
    }
  }

  // Where the links around element k lead.
  lemma DeleteLinks(s: seq<Elem>, k: nat)
    requires s != [] && Linked(s) && k < |s|
    ensures k > 0 ==> s[k].prev == s[k - 1] && s[k - 1].next == s[k]
    ensures k + 1 < |s| ==> s[k].next == s[k + 1] && s[k + 1].prev == s[k]
  {
    if k > 0 { assert s[k - 1].next == s[k - 1 + 1]; }
    if k + 1 < |s| { assert s[k + 1].prev == s[k + 1 - 1]; }
  }

  /* ----- the sort, on sequences ----- */

  /** An element is smaller when the comparison says it comes first. */
  ghost function Less(cmp: (Elem, Elem) -> int): (Elem, Elem) -> bool {
    (x: Elem, y: Elem) => cmp(y, x) > 0
  }

  function Min(a: nat, b: nat): nat { if a < b then a else b }

  // The first w elements, and the others.
  ghost function Block<T>(s: seq<T>, w: nat): seq<T> { s[..Min(w, |s|)] }
  ghost function After<T>(s: seq<T>, w: nat): seq<T> { s[Min(w, |s|)..] }

  /** Merges blocks of w elements two by two. */
  ghost function MergePass<T>(less: (T, T) -> bool, s: seq<T>, w: nat): (t: seq<T>)
    requires w > 0
    ensures |t| == |s|
  {
    if s == [] then []
    else Merge(less, Block(s, w), Block(After(s, w), w)) + MergePass(less, After(After(s, w), w), w)
  }

  /** The number of merges in such a pass. */
  ghost function Merges<T>(s: seq<T>, w: nat): nat
    requires w > 0
  {
    if s == [] then 0 else 1 + Merges(After(After(s, w), w), w)
  }

  /** Every block of w elements is in order. */
  ghost predicate BlocksSorted<T>(less: (T, T) -> bool, s: seq<T>, w: nat)
    requires w > 0
    decreases |s|
  {
    s == [] || (Sorted(less, Block(s, w)) && BlocksSorted(less, After(s, w), w))
  }

  lemma SortedBlocks<T>(less: (T, T) -> bool, s: seq<T>, w: nat)
    requires w > 0 && BlocksSorted(less, s, w)
    ensures Sorted(less, Block(s, w)) && BlocksSorted(less, After(s, w), w)
  {
  }

  lemma {:induction false} SinglesSorted<T>(less: (T, T) -> bool, s: seq<T>)
    ensures BlocksSorted(less, s, 1)
    decreases |s|
  {
    if s != [] {
      SinglesSorted(less, After(s, 1));
    }
  }

  lemma FirstBlocks<T>(s: seq<T>, w: nat)
    ensures s == Block(s, w) + After(s, w)
    ensures s == (Block(s, w) + Block(After(s, w), w)) + After(After(s, w), w)
    ensures forall x | x in s :: x in Block(s, w) || x in Block(After(s, w), w) || x in After(After(s, w), w)
  {
  }

  // Blocks of a concatenation whose first part is a whole block, or is all there is.
  lemma BlockOfConcat<T>(m: seq<T>, r: seq<T>, w: nat)
    requires |m| <= w && (|m| < w ==> r == [])
    ensures Block(m + r, w) == m && After(m + r, w) == r
  {
  }

  /** A pass doubles the width of the blocks that are in order. */
  lemma {:induction false} PassDoubles<T>(less: (T, T) -> bool, s: seq<T>, w: nat)
    requires w > 0 && StrictWeak(less, s) && BlocksSorted(less, s, w)
    ensures BlocksSorted(less, MergePass(less, s, w), 2 * w)
    decreases |s|
  {
    if s != [] {
      var a, b, r := Block(s, w), Block(After(s, w), w), After(After(s, w), w);
      FirstBlocks(s, w);
      SortedBlocks(less, s, w);
      SortedBlocks(less, After(s, w), w);
      StrictWeakSame(less, s, r);
      StrictWeakSame(less, s, a + b);
      PassDoubles(less, r, w);
      MergeSorted(less, a, b);
      BlockOfConcat(Merge(less, a, b), MergePass(less, r, w), 2 * w);
      hide StrictWeak, Sorted;
      assert MergePass(less, s, w) == Merge(less, a, b) + MergePass(less, r, w);
      if Merge(less, a, b) + MergePass(less, r, w) != [] {
        assert BlocksSorted(less, MergePass(less, r, w), 2 * w);
      }
    }
  }

  /** A pass keeps the elements, and the order of equal elements. */
  lemma PassKeeps<T>(less: (T, T) -> bool, s: seq<T>, w: nat)
    requires w > 0 && StrictWeak(less, s) && BlocksSorted(less, s, w)
    ensures SameClasses(less, s, MergePass(less, s, w))
  {
    MergePassElements(less, s, w);
    forall x | x in s
      ensures Class(less, x, s) == Class(less, x, MergePass(less, s, w))
    {
      MergePassClass(less, x, s, w, s);
    }
  }

  lemma {:induction false} MergePassElements<T>(less: (T, T) -> bool, s: seq<T>, w: nat)
    requires w > 0
    ensures multiset(MergePass(less, s, w)) == multiset(s)
    decreases |s|
  {
    if s != [] {
      var a, b, r := Block(s, w), Block(After(s, w), w), After(After(s, w), w);
      FirstBlocks(s, w);
      MergePassElements(less, r, w);
      MergeElements(less, a, b);
      hide Merge;
      assert multiset((a + b) + r) == multiset(a) + multiset(b) + multiset(r);
      assert MergePass(less, s, w) == Merge(less, a, b) + MergePass(less, r, w);
    }
  }

  lemma {:induction false} MergePassClass<T>(less: (T, T) -> bool, x: T, s: seq<T>, w: nat, all: seq<T>)
    requires w > 0 && StrictWeak(less, all) && x in all && BlocksSorted(less, s, w)
    requires forall y | y in s :: y in all
    ensures Class(less, x, s) == Class(less, x, MergePass(less, s, w))
    decreases |s|
  {
    if s != [] {
      var a, b, r := Block(s, w), Block(After(s, w), w), After(After(s, w), w);
      FirstBlocks(s, w);
      SortedBlocks(less, s, w);
      SortedBlocks(less, After(s, w), w);
      MergePassClass(less, x, r, w, all);
      MergeClassAny(less, x, a, b, all);
      ClassConcat(less, x, a + b, r);
      ClassConcat(less, x, a, b);
      ClassConcat(less, x, Merge(less, a, b), MergePass(less, r, w));
    }
  }

  // A pass with a single merge leaves everything in order.
  lemma OneMerge<T>(less: (T, T) -> bool, s: seq<T>, w: nat)
    requires w > 0
    ensures Merges(s, w) <= 1 <==> |s| <= 2 * w
    ensures |s| <= w && BlocksSorted(less, s, w) ==> Sorted(less, s)
  {
    if s != [] {
      assert After(After(s, w), w) == [] <==> |s| <= 2 * w;
      if |s| <= w {
        assert Block(s, w) == s;
      }
    }
  }

  /* ----- the sort, on links ----- */

  // The list put out so far.
  ghost predicate Out(list: Elem?, tail: Elem?, s: seq<Elem>)
    reads s
  {
    if s == [] then list == null && tail == null
    else list == s[0] && tail == Last(s) && s[0].prev == null && Linked(s)
  }

  // What is still to come: only next links matter.
  ghost predicate Ahead(p: Elem?, s: seq<Elem>)
    reads s
  {
    && (s != [] ==> p == s[0])
    && forall i {:trigger s[i].next} | 0 <= i < |s| - 1 :: s[i].next == s[i + 1]
  }

  ghost predicate Rest(q: Elem?, s: seq<Elem>)
    reads s
  {
    && Ahead(q, s)
    && (if s == [] then q == null else Last(s).next == null)
  }

  // Three parts of a sequence without repetitions share nothing.
  lemma PartsApart<T>(s: seq<T>, e: T, a: seq<T>, b: seq<T>)
    requires Distinct((s + [e]) + (a + b))
    ensures Distinct(s) && e !in s && forall x | x in a || x in b :: x !in s && x != e
  {
    DistinctConcat(s + [e], a + b);
    DistinctConcat(s, [e]);
    assert forall x | x in a || x in b :: x in a + b;
    assert e in s + [e] && forall x | x in s :: x in s + [e];
  }

  // Appends e to the list put out so far; the elements still to come stay linked.
  method Emit(list: Elem?, tail: Elem?, e: Elem, ghost p: Elem?, ghost q: Elem?, ghost s: seq<Elem>, ghost a: seq<Elem>, ghost b: seq<Elem>)
    returns (list': Elem, tail': Elem)
    requires Out(list, tail, s) && Ahead(p, a) && Rest(q, b) && Distinct((s + [e]) + (a + b))
    modifies Nodes(s), e
    ensures tail' == e && Out(list', tail', s + [e]) && Ahead(p, a) && Rest(q, b)
  {
    ghost var t := s + [e];
    PartsApart(s, e, a, b);
    if tail != null {
      tail.next := e;
      list' := list;
    } else {
      list' := e;
    }
    e.prev := tail;
    tail' := e;
    forall i {:trigger t[i].next} | 0 <= i < |t| - 1 ensures t[i].next == t[i + 1] {
      if i < |s| - 1 { assert s[i].next == old(s[i].next) == s[i + 1]; }
    }
    forall i {:trigger t[i].prev} | 1 <= i < |t| ensures t[i].prev == t[i - 1] {
      if i < |s| { assert s[i].prev == old(s[i].prev) == s[i - 1]; }
    }
  }

  // The next element comes from the first block.
  lemma TakeFirst(less: (Elem, Elem) -> bool, o: seq<Elem>, a: seq<Elem>, b: seq<Elem>, w: nat)
    requires a != [] && (w == 0 || b == [] || !less(b[0], a[0]))
    ensures (o + [a[0]]) + (a[1..] + b) == o + (a + b)
    ensures (o + [a[0]]) + Merge(less, a[1..], Block(b, w)) == o + Merge(less, a, Block(b, w))
  {
    MergeFirst(less, a, Block(b, w));
    Assoc(o, [a[0]], Merge(less, a[1..], Block(b, w)));
    assert a == [a[0]] + a[1..];
    Assoc(o, [a[0]], a[1..] + b);
    Assoc([a[0]], a[1..], b);
  }

  lemma MergeFirst(less: (Elem, Elem) -> bool, a: seq<Elem>, b: seq<Elem>)
    requires a != [] && (b == [] || !less(b[0], a[0]))
    ensures Merge(less, a, b) == [a[0]] + Merge(less, a[1..], b)
  {
    if b == [] {
      assert Merge(less, a[1..], b) == a[1..];
    }
  }

  // ... or from the second.
  lemma TakeSecond(less: (Elem, Elem) -> bool, o: seq<Elem>, a: seq<Elem>, b: seq<Elem>, w: nat)
    requires w > 0 && b != [] && (a == [] || less(b[0], a[0]))
    ensures Distinct(o + (a + b)) ==> Distinct((o + [b[0]]) + (a + b[1..]))
    ensures Nodes((o + [b[0]]) + (a + b[1..])) == Nodes(o + (a + b))
    ensures (o + [b[0]]) + Merge(less, a, Block(b[1..], w - 1)) == o + Merge(less, a, Block(b, w))
    ensures After(b[1..], w - 1) == After(b, w)
  {
    var m := Merge(less, a, Block(b[1..], w - 1));
    assert Block(b, w)[0] == b[0] && Block(b, w)[1..] == Block(b[1..], w - 1);
    assert Merge(less, a, Block(b, w)) == [b[0]] + m;
    assert (o + [b[0]]) + m == o + ([b[0]] + m);
    MovedForward(o, a, b);
  }

  lemma MovedForward(o: seq<Elem>, a: seq<Elem>, b: seq<Elem>)
    requires b != []
    ensures Distinct(o + (a + b)) ==> Distinct((o + [b[0]]) + (a + b[1..]))
    ensures Nodes((o + [b[0]]) + (a + b[1..])) == Nodes(o + (a + b))
  {
    var e, r := b[0], b[1..];
    assert b == [e] + r;
    DistinctConcat(o, a + b);
    DistinctConcat(a, b);
    DistinctConcat([e], r);
    DistinctConcat(o + [e], a + r);
    DistinctConcat(o, [e]);
    DistinctConcat(a, r);
    assert forall x :: x in o + (a + b) <==> x in o || x in a || x == e || x in r;
    assert forall x :: x in (o + [e]) + (a + r) <==> x in o || x in a || x == e || x in r;
  }

  lemma NodesDisjoint(o: seq<Elem>, a: seq<Elem>, b: seq<Elem>)
    ensures Nodes(o) <= Nodes(o + (a + b))
    ensures forall x | x in a || x in b :: x in Nodes(o + (a + b))
  {
    assert forall x | x in o :: x in o + (a + b);
    assert forall x | x in a || x in b :: x in a + b && x in o + (a + b);
  }

  // Merges the blocks at p and q, of psize and at most qsize elements, onto the list put out so far.
  method MergeBlocks(cmp: (Elem, Elem) -> int, p0: Elem?, psize0: nat, q0: Elem?, qsize0: nat, list0: Elem?, tail0: Elem?,
      ghost out: seq<Elem>, ghost ps: seq<Elem>, ghost qs: seq<Elem>)
    returns (list: Elem?, tail: Elem?, q: Elem?)
    requires Out(list0, tail0, out) && Ahead(p0, ps) && |ps| == psize0 && Rest(q0, qs) && Distinct(out + (ps + qs))
    modifies Nodes(out + (ps + qs))
    ensures Out(list, tail, out + Merge(Less(cmp), ps, Block(qs, qsize0))) && Rest(q, After(qs, qsize0))
    ensures Distinct((out + Merge(Less(cmp), ps, Block(qs, qsize0))) + After(qs, qsize0))
    ensures Nodes((out + Merge(Less(cmp), ps, Block(qs, qsize0))) + After(qs, qsize0)) == Nodes(out + (ps + qs))
  {
    hide Merge, Block, After, Distinct, Nodes, Out;
    list, tail, q := list0, tail0, q0;
    var p, psize, qsize := p0, psize0, qsize0;
    ghost var less := Less(cmp);
    ghost var o, a, b := out, ps, qs;
    while psize > 0 || (qsize > 0 && q != null)
      invariant Out(list, tail, o) && Ahead(p, a) && |a| == psize && Rest(q, b) && Distinct(o + (a + b))
      invariant Nodes(o + (a + b)) == Nodes(out + (ps + qs))
      invariant o + Merge(less, a, Block(b, qsize)) == out + Merge(less, ps, Block(qs, qsize0))
      invariant After(b, qsize) == After(qs, qsize0)
      decreases |a| + |b|
    {
      var e: Elem;
      ghost var a1: seq<Elem>, b1: seq<Elem>;
      NodesDisjoint(o, a, b);
      if psize == 0 {
        e := q;
        TakeSecond(less, o, a, b, qsize);
        q := q.next;
        qsize := qsize - 1;
        a1, b1 := a, b[1..];
      } else if qsize == 0 || q == null {
        e := p;
        TakeFirst(less, o, a, b, qsize);
        p := p.next;
        psize := psize - 1;
        a1, b1 := a[1..], b;
      } else if cmp(p, q) <= 0 {
        e := p;
        TakeFirst(less, o, a, b, qsize);
        p := p.next;
        psize := psize - 1;
        a1, b1 := a[1..], b;
      } else {
        e := q;
        TakeSecond(less, o, a, b, qsize);
        q := q.next;
        qsize := qsize - 1;
        a1, b1 := a, b[1..];
      }
      list, tail := Emit(list, tail, e, p, q, o, a1, b1);
      o, a, b := o + [e], a1, b1;
    }
    Finished(less, o, b, qsize);
  }

  lemma Finished(less: (Elem, Elem) -> bool, o: seq<Elem>, b: seq<Elem>, w: nat)
    requires w == 0 || b == []
    ensures o + Merge(less, [], Block(b, w)) == o && After(b, w) == b && [] + b == b
  {
  }

  // Steps over the first block: where it ends and how long it is.
  method SkipBlock(p: Elem, insize: nat, ghost r: seq<Elem>) returns (q: Elem?, psize: nat)
    requires r != [] && Rest(p, r) && insize > 0
    ensures psize == |Block(r, insize)| && Ahead(p, Block(r, insize)) && Rest(q, After(r, insize))
  {
    q, psize := p, 0;
    for i := 0 to insize
      invariant psize == i < |r| && q == r[i]
    {
      psize := psize + 1;
      assert psize < |r| ==> r[i].next == r[i + 1];
      q := q.next;
      if q == null {
        break;
      }
    }
    ghost var a, b := Block(r, insize), After(r, insize);
    forall i {:trigger a[i].next} | 0 <= i < |a| - 1 ensures a[i].next == a[i + 1] { assert r[i].next == r[i + 1]; }
    ghost var n := Min(insize, |r|);
    forall i {:trigger b[i].next} | 0 <= i < |b| - 1 ensures b[i].next == b[i + 1] { assert r[i + n].next == r[i + n + 1]; }
  }

  lemma NothingOut()
    ensures Out(null, null, [])
  {
  }

  lemma RestFirst(p: Elem?, r: seq<Elem>)
    requires Rest(p, r)
    ensures if p == null then r == [] else r != [] && p == r[0]
  {
  }

  // One pass over the list.
  method SortPass(head: Elem, insize: nat, cmp: (Elem, Elem) -> int, ghost s: seq<Elem>) returns (list: Elem?, nmerges: nat)
    requires s != [] && Rest(head, s) && Distinct(s) && insize > 0
    modifies Nodes(s)
    ensures Dl(list, MergePass(Less(cmp), s, insize)) && Nodes(MergePass(Less(cmp), s, insize)) == Nodes(s)
    ensures nmerges == Merges(s, insize)
  {
    hide Less, Merge, Out, Rest, Ahead, Nodes, Distinct, Block, After;
    var p: Elem? := head;
    list, nmerges := null, 0;
    var tail: Elem? := null;
    ghost var less := Less(cmp);
    ghost var o, r := [], s;
    assert [] + s == s;
    NothingOut();
    while p != null
      invariant Out(list, tail, o) && Rest(p, r) && Distinct(o + r) && Nodes(o + r) == Nodes(s)
      invariant o + MergePass(less, r, insize) == MergePass(less, s, insize)
      invariant nmerges + Merges(r, insize) == Merges(s, insize)
      decreases |r|
    {
      RestFirst(p, r);
      nmerges := nmerges + 1;
      var q, psize := SkipBlock(p, insize, r);
      ghost var a, b := Block(r, insize), After(r, insize);
      assert r == a + b by { FirstBlocks(r, insize); }
      list, tail, p := MergeBlocks(cmp, p, psize, q, insize, list, tail, o, a, b);
      PassNext(less, o, r, insize);
      o, r := o + Merge(less, a, Block(b, insize)), After(b, insize);
    }
    RestFirst(p, r);
    assert o + r == o && o + MergePass(less, [], insize) == o;
    assert Nodes(o) == Nodes(s) && o == MergePass(less, s, insize);
    Close(list, tail, o);
  }

  // The links at the two ends.
  method Close(list: Elem?, tail: Elem?, ghost o: seq<Elem>)
    requires o != [] && Out(list, tail, o) && Distinct(o)
    modifies Nodes(o)
    ensures Dl(list, o)
  {
    list.prev := tail;
    tail.next := null;
  }

  lemma PassNext(less: (Elem, Elem) -> bool, o: seq<Elem>, r: seq<Elem>, w: nat)
    requires r != [] && w > 0
    ensures var a, b := Block(r, w), After(r, w);
      && (o + Merge(less, a, Block(b, w))) + MergePass(less, After(b, w), w) == o + MergePass(less, r, w)
      && Merges(r, w) == 1 + Merges(After(b, w), w) && |After(b, w)| < |r|
  {
    Assoc(o, Merge(less, Block(r, w), Block(After(r, w), w)), MergePass(less, After(After(r, w), w), w));
  }

  /**
   DL_SORT2: the list of the stable sort t of s. The run width doubles in each pass, so
   there are as many passes as the length has binary digits, and at least one.
   */
  method Sort(list: Elem?, cmp: (Elem, Elem) -> int, ghost s: seq<Elem>) returns (head: Elem?, ghost t: seq<Elem>, ghost passes: nat)
    requires Dl(list, s) && StrictWeak(Less(cmp), s)
    modifies Nodes(s)
    ensures Dl(head, t) && Nodes(t) == Nodes(s)
    ensures StableSort(Less(cmp), s, t)
    ensures s != [] ==> passes >= 1 && |s| <= Power2(passes) && (passes > 1 ==> Power2(passes - 1) < |s|)
  {
    hide StrictWeak, Sorted, SameClasses, MergePass, Merges, BlocksSorted, Less, Distinct, Nodes;
    head, t, passes := list, s, 0;
    ghost var less := Less(cmp);
    SameAsItself(less, s);
    if head != null {
      var insize, looping := 1, true;
      SinglesSorted(less, t);
      while looping
        invariant insize > 0 && s != [] && |t| == |s| && Dl(head, t) && Nodes(t) == Nodes(s)
        invariant SameClasses(less, s, t) && StrictWeak(less, t) && BlocksSorted(less, t, insize)
        invariant insize == Power2(passes) && (passes > 0 ==> looping ==> insize < |s|)
        invariant !looping ==> passes >= 1 && Sorted(less, t) && |s| <= insize && (passes > 1 ==> Power2(passes - 1) < |s|)
        decreases looping, |s| - insize
      {
        var nmerges;
        NextRound(less, s, t, insize);
        DlRest(head, t);
        OneMerge(less, t, insize);
        head, nmerges := SortPass(head, insize, cmp, t);
        t := MergePass(less, t, insize);
        passes := passes + 1;
        if nmerges <= 1 {
          looping := false;
          OneMerge(less, t, 2 * insize);
        }
        insize := insize * 2;
      }
    } else {
      EmptySorted(less);
    }
  }

  lemma SameAsItself(less: (Elem, Elem) -> bool, s: seq<Elem>)
    ensures SameClasses(less, s, s)
  {
  }

  lemma EmptySorted(less: (Elem, Elem) -> bool)
    ensures Sorted(less, [])
  {
  }

  lemma DlRest(head: Elem?, s: seq<Elem>)
    requires Dl(head, s) && s != []
    ensures Rest(head, s) && Distinct(s)
  {
  }

  lemma NextRound<T>(less: (T, T) -> bool, s: seq<T>, t: seq<T>, w: nat)
    requires w > 0 && SameClasses(less, s, t) && StrictWeak(less, t) && BlocksSorted(less, t, w)
    ensures var t' := MergePass(less, t, w); SameClasses(less, s, t') && StrictWeak(less, t') && BlocksSorted(less, t', 2 * w)
  {
    hide *;
    var t' := MergePass(less, t, w);
    PassDoubles(less, t, w);
    PassKeeps(less, t, w);
    SameClassesTrans(less, s, t, t');
    StrictWeakKept(less, t, t');
  }

  lemma StrictWeakKept<T>(less: (T, T) -> bool, t: seq<T>, t': seq<T>)
    requires StrictWeak(less, t) && SameClasses(less, t, t')
    ensures StrictWeak(less, t')
  {
    SameElements(t, t');
    hide StrictWeak, SameClasses;
    StrictWeakSame(less, t, t');
  }
}
