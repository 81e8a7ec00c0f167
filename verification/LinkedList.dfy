/**
 The kernel's doubly linked list: elements with `prev` and `next` links between
 two sentinels, manipulated only by redirecting links.

 The ghost sequence of a chain names every element on it in order, sentinels
 included; each operation states the chain it leaves behind.
 */
module LinkedList {
  import opened Order

  class Elem {
    var prev: Elem?
    var next: Elem?

    constructor ()
      ensures prev == null && next == null
    {
      prev, next := null, null;
    }
  }

  /** `s` is a whole list: head sentinel, interior elements, tail sentinel, with links that mirror each other. */
  ghost predicate Chain(s: seq<Elem>)
    reads s
  {
    && |s| >= 2
    && s[0].prev == null
    && s[|s| - 1].next == null
    && (forall i {:trigger s[i].next} | 0 <= i < |s| - 1 :: s[i].next == s[i + 1])
    && (forall i {:trigger s[i].prev} | 1 <= i < |s| :: s[i].prev == s[i - 1])
    && Distinct(s)
  }

  ghost function Nodes(s: seq<Elem>): set<Elem> {
    set e | e in s
  }

  ghost predicate Distinct<T>(s: seq<T>) {
    forall i, j | 0 <= i < j < |s| :: s[i] != s[j]
  }

  /** Consecutive elements of `s` point at each other; nothing is said about the two outer links. */
  ghost predicate Linked(s: seq<Elem>)
    reads s
  {
    && (forall i {:trigger s[i].next} | 0 <= i < |s| - 1 :: s[i].next == s[i + 1])
    && (forall i {:trigger s[i].prev} | 1 <= i < |s| :: s[i].prev == s[i - 1])
  }

  ghost predicate Joined(a: seq<Elem>, b: seq<Elem>)
    requires a != [] && b != []
    reads a, b
  {
    a[|a| - 1].next == b[0] && b[0].prev == a[|a| - 1]
  }

  lemma LinkedConcat(a: seq<Elem>, b: seq<Elem>)
    requires a != [] && b != []
    ensures Linked(a + b) <==> Linked(a) && Linked(b) && Joined(a, b)
  {
    var s := a + b;
    if Linked(s) {
      forall i {:trigger a[i].next} | 0 <= i < |a| - 1 ensures a[i].next == a[i + 1] { assert s[i].next == s[i + 1]; }
      forall i {:trigger a[i].prev} | 1 <= i < |a| ensures a[i].prev == a[i - 1] { assert s[i].prev == s[i - 1]; }
      forall i {:trigger b[i].next} | 0 <= i < |b| - 1 ensures b[i].next == b[i + 1] { assert s[i + |a|].next == s[i + |a| + 1]; }
      forall i {:trigger b[i].prev} | 1 <= i < |b| ensures b[i].prev == b[i - 1] { assert s[i + |a|].prev == s[i + |a| - 1]; }
      assert s[|a| - 1].next == s[|a|] && s[|a|].prev == s[|a| - 1];
    }
    if Linked(a) && Linked(b) && Joined(a, b) {
      forall i {:trigger s[i].next} | 0 <= i < |s| - 1 ensures s[i].next == s[i + 1] {
        if i < |a| - 1 { assert a[i].next == a[i + 1]; } else if i >= |a| { assert b[i - |a|].next == b[i - |a| + 1]; }
      }
      forall i {:trigger s[i].prev} | 1 <= i < |s| ensures s[i].prev == s[i - 1] {
        if i < |a| { assert a[i].prev == a[i - 1]; } else if i > |a| { assert b[i - |a|].prev == b[i - |a| - 1]; }
      }
    }
  }

  lemma DistinctConcat<T>(a: seq<T>, b: seq<T>)
    ensures Distinct(a + b) <==> Distinct(a) && Distinct(b) && forall x | x in a :: x !in b
  {
    var s := a + b;
    if Distinct(s) {
      forall i, j | 0 <= i < j < |a| ensures a[i] != a[j] { assert s[i] != s[j]; }
      forall i, j | 0 <= i < j < |b| ensures b[i] != b[j] { assert s[i + |a|] != s[j + |a|]; }
      forall x | x in a ensures x !in b {
        var i :| 0 <= i < |a| && a[i] == x;
        forall j | 0 <= j < |b| ensures b[j] != x { assert s[i] != s[j + |a|]; }
      }
    }
    if Distinct(a) && Distinct(b) && forall x | x in a :: x !in b {
      forall i, j | 0 <= i < j < |s| ensures s[i] != s[j] {
        assert s[i] == if i < |a| then a[i] else b[i - |a|];
        assert s[j] == if j < |a| then a[j] else b[j - |a|];
        if i < |a| <= j {
          assert a[i] !in b;
        }
      }
    }
  }

  ghost function Last(s: seq<Elem>): Elem
    requires s != []
  {
    s[|s| - 1]
  }

  ghost predicate Apart(a: seq<Elem>, b: seq<Elem>) {
    forall e | e in a :: e !in b
  }

  // A segment of a chain: linked inside, no repetitions.
  ghost predicate Piece(a: seq<Elem>)
    reads a
  {
    a != [] && Linked(a) && Distinct(a)
  }

  lemma PieceConcat(a: seq<Elem>, b: seq<Elem>)
    requires a != [] && b != []
    ensures Piece(a + b) <==> Piece(a) && Piece(b) && Joined(a, b) && Apart(a, b)
  {
    LinkedConcat(a, b);
    DistinctConcat(a, b);
  }

  // What it takes for four pieces to make up a chain.
  ghost predicate Four(p: seq<Elem>, x: seq<Elem>, y: seq<Elem>, r: seq<Elem>)
    reads p, x, y, r
  {
    && Piece(p) && Piece(x) && Piece(y) && Piece(r)
    && p[0].prev == null && Last(r).next == null
    && Joined(p, x) && Joined(x, y) && Joined(y, r)
    && Apart(p, x) && Apart(p, y) && Apart(p, r) && Apart(x, y) && Apart(x, r) && Apart(y, r)
  }

  lemma FourPieces(p: seq<Elem>, x: seq<Elem>, y: seq<Elem>, r: seq<Elem>)
    requires p != [] && x != [] && y != [] && r != []
    ensures Chain(p + (x + (y + r))) <==> Four(p, x, y, r)
  {
    PieceConcat(y, r);
    PieceConcat(x, y + r);
    PieceConcat(p, x + (y + r));
    assert Joined(x, y) <==> Joined(x, y + r);
    assert Joined(p, x) <==> Joined(p, x + (y + r));
    var s := p + (x + (y + r));
    assert s[0] == p[0] && s[|s| - 1] == Last(r);
    assert Chain(s) <==> Piece(s) && p[0].prev == null && Last(r).next == null;
    assert Apart(x, y + r) <==> Apart(x, y) && Apart(x, r);
    assert Apart(p, x + (y + r)) <==> Apart(p, x) && Apart(p, y) && Apart(p, r);
  }

  // Links inside `a` survive when only the outer links of some pieces were written.
  twostate lemma PieceFrame(a: seq<Elem>)
    requires old(Piece(a))
    requires forall e | e in a[..|a| - 1] :: e.next == old(e.next)
    requires forall e | e in a[1..] :: e.prev == old(e.prev)
    ensures Piece(a)
  {
    forall i {:trigger a[i].next} | 0 <= i < |a| - 1 ensures a[i].next == a[i + 1] {
      assert a[i] == a[..|a| - 1][i];
      assert old(a[i].next) == a[i + 1];
    }
    forall i {:trigger a[i].prev} | 1 <= i < |a| ensures a[i].prev == a[i - 1] {
      assert a[i] == a[1..][i - 1];
      assert old(a[i].prev) == a[i - 1];
    }
  }

  // Elements of a repetition-free sequence other than the last (first) differ from the last (first).
  lemma InnerLinks(a: seq<Elem>)
    requires a != [] && Distinct(a)
    ensures forall e | e in a[..|a| - 1] :: e in a && e != Last(a)
    ensures forall e | e in a[1..] :: e in a && e != a[0]
  {
    forall e | e in a[..|a| - 1]
      ensures e in a && e != Last(a)
    {
      var i :| 0 <= i < |a| - 1 && a[..|a| - 1][i] == e;
      assert a[i] != a[|a| - 1];
    }
  }

  // A chain in three pieces, and in two.
  ghost predicate Three(p: seq<Elem>, m: seq<Elem>, r: seq<Elem>)
    reads p, m, r
  {
    && Piece(p) && Piece(m) && Piece(r)
    && p[0].prev == null && Last(r).next == null
    && Joined(p, m) && Joined(m, r)
    && Apart(p, m) && Apart(p, r) && Apart(m, r)
  }

  lemma ThreePieces(p: seq<Elem>, m: seq<Elem>, r: seq<Elem>)
    requires p != [] && m != [] && r != []
    ensures Chain(p + (m + r)) <==> Three(p, m, r)
  {
    PieceConcat(m, r);
    PieceConcat(p, m + r);
    assert Joined(p, m) <==> Joined(p, m + r);
    var s := p + (m + r);
    assert s[0] == p[0] && s[|s| - 1] == Last(r);
    assert Chain(s) <==> Piece(s) && p[0].prev == null && Last(r).next == null;
    assert Apart(p, m + r) <==> Apart(p, m) && Apart(p, r);
  }

  ghost predicate Two(p: seq<Elem>, r: seq<Elem>)
    reads p, r
  {
    Piece(p) && Piece(r) && p[0].prev == null && Last(r).next == null && Joined(p, r) && Apart(p, r)
  }

  lemma TwoPieces(p: seq<Elem>, r: seq<Elem>)
    requires p != [] && r != []
    ensures Chain(p + r) <==> Two(p, r)
  {
    PieceConcat(p, r);
    var s := p + r;
    assert s[0] == p[0] && s[|s| - 1] == Last(r);
  }

  /**
   Removes `first` up to (not including) `last` from their list and links them in
   front of `before`: at most six links change, and these are their new values.
   */
  method Splice(before: Elem, first: Elem, last: Elem)
    requires before.prev != null && before.prev.next == before
    requires first.prev != null && first.prev.next == first
    requires last.prev != null && last.prev.next == last
    requires first != last ==> before != first
    modifies first`prev, last`prev, before`prev, first.prev`next, last.prev`next, before.prev`next
    ensures first == last || before == last ==>
      && before.prev == old(before.prev) && first.prev == old(first.prev) && last.prev == old(last.prev)
      && before.prev.next == before && first.prev.next == first && last.prev.next == last
    ensures first != last && before != last ==>
      && last.prev == old(first.prev) && last.prev.next == last
      && first.prev == old(before.prev) && first.prev.next == first
      && before.prev == old(last.prev) && before.prev.next == before
  {
    if first == last {
      return;
    }
    var back := last.prev;
    // unlink
    first.prev.next := back.next;
    back.next.prev := first.prev;
    // link in
    first.prev := before.prev;
    back.next := before;
    before.prev.next := first;
    before.prev := back;
  }

  /** Within one list p + x + y + r: moving x forward to r, or y back to x, exchanges the two. */
  method SpliceWithin(before: Elem, first: Elem, last: Elem,
                      ghost p: seq<Elem>, ghost x: seq<Elem>, ghost y: seq<Elem>, ghost r: seq<Elem>, ghost forward: bool)
    requires p != [] && x != [] && y != [] && r != []
    requires Chain(p + (x + (y + r)))
    requires if forward then first == x[0] && last == y[0] && before == r[0] else first == y[0] && last == r[0] && before == x[0]
    modifies Nodes(p + (x + (y + r)))
    ensures Chain(p + (y + (x + r)))
  {
    FourPieces(p, x, y, r);
    assert x[0] in x && y[0] in y && r[0] in r;
    assert Last(p) in p && Last(x) in x && Last(y) in y;
    Splice(before, first, last);
    InnerLinks(p); InnerLinks(x); InnerLinks(y); InnerLinks(r);
    PieceFrame(p); PieceFrame(x); PieceFrame(y); PieceFrame(r);
    FourPieces(p, y, x, r);
  }

  /** Between two lists p + m + r and b + c: m moves in front of c. */
  method SpliceAcross(before: Elem, first: Elem, last: Elem,
                      ghost p: seq<Elem>, ghost m: seq<Elem>, ghost r: seq<Elem>, ghost b: seq<Elem>, ghost c: seq<Elem>)
    requires p != [] && m != [] && r != [] && b != [] && c != []
    requires Chain(p + (m + r)) && Chain(b + c)
    requires Apart(p, b) && Apart(p, c) && Apart(m, b) && Apart(m, c) && Apart(r, b) && Apart(r, c)
    requires first == m[0] && last == r[0] && before == c[0]
    modifies Nodes(p + (m + r)), Nodes(b + c)
    ensures Chain(p + r) && Chain(b + (m + c))
  {
    ThreePieces(p, m, r);
    TwoPieces(b, c);
    assert m[0] in m && r[0] in r && c[0] in c;
    Splice(before, first, last);
    InnerLinks(p); InnerLinks(m); InnerLinks(r); InnerLinks(b); InnerLinks(c);
    PieceFrame(p); PieceFrame(m); PieceFrame(r); PieceFrame(b); PieceFrame(c);
    TwoPieces(p, r);
    ThreePieces(b, m, c);
  }

  /** Links `elem`, which is on no list, in front of `before`. */
  method Insert(before: Elem, elem: Elem, ghost p: seq<Elem>, ghost r: seq<Elem>)
    requires p != [] && r != [] && Chain(p + r)
    requires before == r[0] && elem !in p + r
    modifies Nodes(p + r), elem
    ensures Chain(p + ([elem] + r))
  {
    TwoPieces(p, r);
    elem.prev := before.prev;
    elem.next := before;
    before.prev.next := elem;
    before.prev := elem;
    InnerLinks(p); InnerLinks(r);
    PieceFrame(p); PieceFrame(r);
    ThreePieces(p, [elem], r);
  }

  /** Unlinks `elem` and returns its successor. */
  method Remove(elem: Elem, ghost p: seq<Elem>, ghost r: seq<Elem>) returns (next: Elem)
    requires p != [] && r != [] && Chain(p + ([elem] + r))
    modifies Nodes(p + r)
    ensures Chain(p + r) && next == r[0]
    ensures elem.prev == old(elem.prev) && elem.next == old(elem.next)
  {
    ThreePieces(p, [elem], r);
    elem.prev.next := elem.next;
    elem.next.prev := elem.prev;
    InnerLinks(p); InnerLinks(r);
    PieceFrame(p); PieceFrame(r);
    TwoPieces(p, r);
    next := elem.next;
  }

  ghost function Reversed<T>(s: seq<T>): seq<T> {
    seq(|s|, i requires 0 <= i < |s| => s[|s| - 1 - i])
  }

  lemma ReversedNodes(s: seq<Elem>, head: Elem, tail: Elem)
    ensures Nodes([head] + (Reversed(s) + [tail])) == Nodes([head] + (s + [tail]))
  {
    forall e
      ensures e in s <==> e in Reversed(s)
    {
      if e in s {
        var i :| 0 <= i < |s| && s[i] == e;
        assert Reversed(s)[|s| - 1 - i] == e;
      }
    }
  }

  // Links that run backwards through the interior of s make a chain of the reversed interior.
  lemma ReversedChain(s: seq<Elem>)
    requires |s| > 2 && Distinct(s)
    requires s[0].prev == null && s[|s| - 1].next == null
    requires s[0].next == s[|s| - 2] && s[|s| - 2].prev == s[0]
    requires s[1].next == s[|s| - 1] && s[|s| - 1].prev == s[1]
    requires forall i {:trigger s[i].next} | 2 <= i <= |s| - 2 :: s[i].next == s[i - 1]
    requires forall i {:trigger s[i].prev} | 1 <= i < |s| - 2 :: s[i].prev == s[i + 1]
    ensures Chain([s[0]] + (Reversed(s[1..|s| - 1]) + [s[|s| - 1]]))
  {
    var n := |s| - 2;
    var t := [s[0]] + (Reversed(s[1..|s| - 1]) + [s[|s| - 1]]);
    assert |t| == n + 2 && t[0] == s[0] && t[n + 1] == s[n + 1];
    assert forall i {:trigger t[i]} | 1 <= i <= n :: t[i] == s[n + 1 - i];
    forall i {:trigger t[i].next} | 0 <= i < |t| - 1 ensures t[i].next == t[i + 1] {
      if 0 < i < n { assert s[n + 1 - i].next == s[n - i]; }
    }
    forall i {:trigger t[i].prev} | 1 <= i < |t| ensures t[i].prev == t[i - 1] {
      if 1 < i <= n { assert s[n + 1 - i].prev == s[n + 2 - i]; }
    }
    forall i, j | 0 <= i < j < |t| ensures t[i] != t[j] {
      var i', j' := if 1 <= i <= n then n + 1 - i else i, if 1 <= j <= n then n + 1 - j else j;
      assert t[i] == s[i'] && t[j] == s[j'] && i' != j';
    }
  }
}
