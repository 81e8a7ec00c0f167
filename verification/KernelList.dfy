/**
 The list itself: sentinels plus the operations on whole lists.
 */
module KernelList {
  import opened Order
  import opened LinkedList
  import opened ListSort

  // Exchanges the two links of every element from `first` up to `tail`.
  method SwapLinks(first: Elem, tail: Elem, ghost s: seq<Elem>)
    requires Chain(s) && |s| > 2 && first == s[1] && tail == s[|s| - 1]
    modifies Nodes(s)
    ensures s[0].prev == null && s[0].next == s[1] && tail.prev == s[|s| - 2] && tail.next == null
    ensures forall i {:trigger s[i].next} | 1 <= i <= |s| - 2 :: s[i].next == s[i - 1]
    ensures forall i {:trigger s[i].prev} | 1 <= i <= |s| - 2 :: s[i].prev == s[i + 1]
  {
    var e := first;
    ghost var k := 1;
    while e != tail
      invariant 1 <= k <= |s| - 1 && e == s[k]
      invariant s[0].prev == null && s[0].next == s[1] && tail.prev == s[|s| - 2] && tail.next == null
      invariant forall i {:trigger s[i].next} | 1 <= i < k :: s[i].next == s[i - 1]
      invariant forall i {:trigger s[i].prev} | 1 <= i < k :: s[i].prev == s[i + 1]
      invariant forall i {:trigger s[i].next} | k <= i <= |s| - 2 :: s[i].next == s[i + 1]
      invariant forall i {:trigger s[i].prev} | k <= i <= |s| - 2 :: s[i].prev == s[i - 1]
      decreases |s| - k
    {
      e.prev, e.next := e.next, e.prev;
      assert s[k].prev == s[k + 1];
      e := e.prev;
      k := k + 1;
    }
  }

  /** A list is its two sentinels; the ghost field names the interior elements in order. */
  class List {
    const head: Elem
    const tail: Elem
    ghost var elems: seq<Elem>

    ghost function All(): seq<Elem>
      reads this
    {
      [head] + (elems + [tail])
    }

    ghost predicate Valid()
      reads this, Nodes(All())
    {
      Chain(All())
    }

    constructor ()
      ensures Valid() && elems == [] && fresh(head) && fresh(tail)
    {
      var h := new Elem();
      var t := new Elem();
      h.next := t;
      t.prev := h;
      head, tail, elems := h, t, [];
      new;
      assert All() == [head, tail];
    }

    // One trip over the list, merging runs two by two; returns how many runs it put out.
    method SortPass(less: (Elem, Elem) -> bool) returns (runs: nat)
      requires Valid()
      modifies this, Nodes(All())
      ensures Valid() && Nodes(All()) == old(Nodes(All()))
      ensures elems == Pass(less, old(elems))
      ensures runs == PassRuns(less, old(elems))
    {
      runs := 0;
      var a0 := head.next;
      ghost var done, rest := [head], elems;
      assert a0 == (rest + [tail])[0] by {
        assert All()[0].next == All()[1];
      }
      while a0 != tail
        invariant elems == old(elems)
        invariant done != [] && done[0] == head && Chain(done + (rest + [tail]))
        invariant Nodes(done + (rest + [tail])) == old(Nodes(All()))
        invariant a0 == (rest + [tail])[0]
        invariant done + Pass(less, rest) == [head] + Pass(less, old(elems))
        invariant runs + PassRuns(less, rest) == PassRuns(less, old(elems))
        invariant rest != [] ==> a0 != tail
        decreases |rest|
      {
        assert rest != [];
        runs := runs + 1;
        var a1b0 := FindEndOfRun(a0, tail, less, done, rest, [tail]);
        RunEnd(less, done, rest, tail);
        if a1b0 == tail {
          done, rest := done + rest, [];
          break;
        }
        ghost var m, after := FirstPair(less, rest), AfterPair(less, rest);
        PassAdvance(less, done, rest);
        a0 := MergeRuns(a0, a1b0, tail, less, done, rest);
        done, rest := done + m, after;
      }
      elems := Pass(less, elems);
      assert rest == [];
      AllSorted(done, rest, Pass(less, rest), head, elems, tail);
    }

    /**
     Sorts the list. The result is the stable sort of the old contents, reached
     after at most max(1, ceil(log2 R)) passes for R runs.
     */
    method Sort(less: (Elem, Elem) -> bool) returns (passes: nat)
      requires Valid() && StrictWeak(less, elems)
      modifies this, Nodes(All())
      ensures Valid() && Nodes(All()) == old(Nodes(All()))
      ensures StableSort(less, old(elems), elems)
      ensures 1 <= passes <= Passes(Runs(less, old(elems)))
    {
      passes := 0;
      var outputRuns := 2;
      SameClassesRefl(less, elems);
      while outputRuns > 1
        invariant Valid() && Nodes(All()) == old(Nodes(All()))
        invariant SameClasses(less, old(elems), elems)
        invariant outputRuns > 1 ==> passes + Passes(Runs(less, elems)) <= Passes(Runs(less, old(elems)))
        invariant outputRuns <= 1 ==> 1 <= passes <= Passes(Runs(less, old(elems))) && Sorted(less, elems)
        decreases outputRuns > 1, Runs(less, elems)
      {
        ghost var before := elems;
        SameElements(old(elems), before);
        StrictWeakSame(less, old(elems), before);
        outputRuns := SortPass(less);
        passes := passes + 1;
        PassProgress(less, old(elems), before, elems);
      }
    }

    /** Reverses the list by exchanging the two links of every element. */
    method Reverse()
      requires Valid()
      modifies this, Nodes(All())
      ensures Valid() && Nodes(All()) == old(Nodes(All()))
      ensures elems == Reversed(old(elems))
    {
      ghost var s := All();
      if head.next == tail {
        assert s[0].next == s[1];
        assert |elems| == 0;
        return;
      }
      SwapLinks(head.next, tail, s);
      head.next, tail.prev := tail.prev, head.next;
      head.next.prev, tail.prev.next := tail.prev.next, head.next.prev;
      ReversedChain(s);
      elems := Reversed(elems);
      ReversedNodes(old(elems), head, tail);
      assert All() == [s[0]] + (Reversed(s[1..|s| - 1]) + [s[|s| - 1]]) by {
        assert s[1..|s| - 1] == old(elems);
      }
    }

    /** Links `elem` in front of position k. */
    method InsertAt(before: Elem, elem: Elem, ghost k: nat)
      requires Valid() && k <= |elems| && before == (elems + [tail])[k] && elem !in All()
      modifies this, Nodes(All()), elem
      ensures Valid() && elems == old(elems[..k] + [elem] + elems[k..])
    {
      ghost var p, r := [head] + elems[..k], elems[k..] + [tail];
      assert p + r == All();
      Insert(before, elem, p, r);
      elems := elems[..k] + [elem] + elems[k..];
      assert p + ([elem] + r) == All();
    }

    /** Inserts into a sorted list after every element that is not greater, so the order stays sorted and stable. */
    method InsertOrdered(elem: Elem, less: (Elem, Elem) -> bool)
      requires Valid() && elem !in All()
      requires StrictWeak(less, elems + [elem]) && Sorted(less, elems)
      modifies this, Nodes(All()), elem
      ensures Valid() && StableSort(less, old(elems + [elem]), elems)
    {
      ghost var s := All();
      ghost var k := 0;
      assert s[0].next == s[1];
      var e := head.next;
      while e != tail
        invariant k <= |elems| && e == (elems + [tail])[k]
        invariant forall i | 0 <= i < k :: !less(elem, elems[i])
        decreases |elems| - k
      {
        assert s[k + 1] == elems[k] && s[k + 2] == (elems + [tail])[k + 1];
        if less(elem, e) {
          break;
        }
        e := e.next;
        k := k + 1;
      }
      assert e == tail ==> k == |elems| by {
        if k < |elems| { assert s[k + 1] != s[|elems| + 1]; }
      }
      InsertedInOrder(less, elems, elem, k);
      InsertAt(e, elem, k);
    }

    /**
     Removes every element equal to the last one kept; when `dups` is given, the
     removed elements are appended to it in order.
     */
    method Unique(dups: List?, less: (Elem, Elem) -> bool)
      requires Valid()
      requires dups != null ==> dups != this && dups.Valid() && Nodes(dups.All()) !! Nodes(All())
      modifies this, Nodes(All()), dups, if dups == null then {} else Nodes(dups.All())
      ensures Valid() && elems == Kept(less, old(elems))
      ensures dups != null ==> dups.Valid() && dups.elems == old(dups.elems) + Dropped(less, old(elems))
    {
      ghost var s := All();
      assert s == [] + s;
      RestHead([], head, elems, tail);
      if head.next == tail {
        return;
      }
      Uncons(head, elems, tail);
      ghost var kept := DropRepeats(head.next, tail, dups, less, [head], elems[1..]);
      elems := Kept(less, elems);
      Assoc([head], elems, [tail]);
    }
  }

  lemma Uncons(head: Elem, elems: seq<Elem>, tail: Elem)
    requires elems != []
    ensures elems == [elems[0]] + elems[1..]
    ensures [head] + (elems + [tail]) == [head] + ([elems[0]] + (elems[1..] + [tail]))
    ensures (elems + [tail])[0] == elems[0]
  {
  }

  // Walks from `elem` to `tail`, moving every element equal to the last one kept to `dups`.
  method DropRepeats(first: Elem, tail: Elem, dups: List?, less: (Elem, Elem) -> bool, ghost p0: seq<Elem>, ghost rest0: seq<Elem>)
    returns (ghost kept: seq<Elem>)
    requires p0 != [] && Chain(p0 + ([first] + (rest0 + [tail])))
    requires dups != null ==> dups.Valid() && Nodes(dups.All()) !! Nodes(p0 + ([first] + (rest0 + [tail])))
    modifies Nodes(p0 + ([first] + (rest0 + [tail]))), dups, if dups == null then {} else Nodes(dups.All())
    ensures kept == p0 + Kept(less, [first] + rest0) && Chain(kept + [tail])
    ensures dups != null ==> dups.Valid() && dups.elems == old(dups.elems) + Dropped(less, [first] + rest0)
  {
    var elem: Elem := first;
    ghost var p, rest, dropped := p0, rest0, [];
    ghost var world := Nodes(p + ([elem] + (rest + [tail]))) + (if dups == null then {} else Nodes(dups.All()));
    while elem.next != tail
      invariant p != [] && Chain(p + ([elem] + (rest + [tail])))
      invariant Nodes(p + ([elem] + (rest + [tail]))) <= world
      invariant dups != null ==> dups.Valid() && Nodes(dups.All()) <= world && Nodes(dups.All()) !! Nodes(p + ([elem] + (rest + [tail])))
      invariant dups != null ==> dups.elems == old(dups.elems) + dropped
      invariant p + Kept(less, [elem] + rest) == p0 + Kept(less, [first] + rest0)
      invariant dropped + Dropped(less, [elem] + rest) == Dropped(less, [first] + rest0)
      decreases |rest|
    {
      RestHead(p, elem, rest, tail);
      var next: Elem := elem.next;
      UniqueStep(less, p, dropped, elem, rest, tail);
      if !less(elem, next) && !less(next, elem) {
        MoveToEnd(next, dups, p + [elem], rest[1..] + [tail]);
        rest, dropped := rest[1..], dropped + [next];
      } else {
        p, elem, rest := p + [elem], next, rest[1..];
      }
    }
    RestHead(p, elem, rest, tail);
    kept := p + [elem];
    assert kept + [tail] == p + ([elem] + (rest + [tail]));
  }

  // Takes `elem` off the list p + elem + r and, when there is one, puts it at the end of `dups`.
  method MoveToEnd(elem: Elem, dups: List?, ghost p: seq<Elem>, ghost r: seq<Elem>)
    requires p != [] && r != [] && Chain(p + ([elem] + r))
    requires dups != null ==> dups.Valid() && Nodes(dups.All()) !! Nodes(p + ([elem] + r))
    modifies Nodes(p + ([elem] + r)), dups, if dups == null then {} else Nodes(dups.All())
    ensures Chain(p + r) && Nodes(p + r) == Nodes(p + ([elem] + r)) - {elem}
    ensures dups != null ==> dups.Valid() && dups.elems == old(dups.elems) + [elem]
    ensures dups != null ==> Nodes(dups.All()) == old(Nodes(dups.All())) + {elem}
  {
    ThreePieces(p, [elem], r);
    assert elem in Nodes(p + ([elem] + r));
    var _ := Remove(elem, p, r);
    if dups != null {
      dups.InsertAt(dups.tail, elem, |dups.elems|);
      assert dups.elems == old(dups.elems) + [elem];
    }
  }

  // The successor of `elem` is the next pending element, or the tail when none is left.
  lemma RestHead(p: seq<Elem>, elem: Elem, rest: seq<Elem>, tail: Elem)
    requires Chain(p + ([elem] + (rest + [tail])))
    ensures elem.next == (rest + [tail])[0]
    ensures elem.next == tail <==> rest == []
  {
    var s := p + ([elem] + (rest + [tail]));
    assert s[|p|] == elem && s[|p| + 1] == (rest + [tail])[0] && s[|p| + 1 + |rest|] == tail;
  }

  // Both ways one comparison can go, as steps of Kept and Dropped.
  lemma UniqueStep(less: (Elem, Elem) -> bool, p: seq<Elem>, dropped: seq<Elem>, elem: Elem, rest: seq<Elem>, tail: Elem)
    requires rest != []
    ensures Equiv(less, elem, rest[0]) ==>
      && p + Kept(less, [elem] + rest[1..]) == p + Kept(less, [elem] + rest)
      && (dropped + [rest[0]]) + Dropped(less, [elem] + rest[1..]) == dropped + Dropped(less, [elem] + rest)
    ensures !Equiv(less, elem, rest[0]) ==>
      && (p + [elem]) + Kept(less, [rest[0]] + rest[1..]) == p + Kept(less, [elem] + rest)
      && Dropped(less, [rest[0]] + rest[1..]) == Dropped(less, [elem] + rest)
    ensures p + ([elem] + (rest + [tail])) == (p + [elem]) + ([rest[0]] + (rest[1..] + [tail]))
    ensures (p + [elem]) + (rest[1..] + [tail]) == p + ([elem] + (rest[1..] + [tail]))
  {
    var s := [elem] + rest;
    assert [s[0]] + s[2..] == [elem] + rest[1..];
    assert s[1..] == [rest[0]] + rest[1..] == rest;
    if Equiv(less, elem, rest[0]) {
      Assoc(dropped, [rest[0]], Dropped(less, [elem] + rest[1..]));
    } else {
      Assoc(p, [elem], Kept(less, rest));
    }
    MoveOn(p, elem, rest, tail);
  }

  lemma MoveOn(p: seq<Elem>, elem: Elem, rest: seq<Elem>, tail: Elem)
    requires rest != []
    ensures p + ([elem] + (rest + [tail])) == (p + [elem]) + ([rest[0]] + (rest[1..] + [tail]))
    ensures (p + [elem]) + (rest[1..] + [tail]) == p + ([elem] + (rest[1..] + [tail]))
  {
  }
}
