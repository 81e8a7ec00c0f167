/**
 The bookkeeping of the kernel allocator: which pages are arenas, which blocks of
 an arena are live and which are on a free list. Addresses are byte offsets into
 the kernel page pool; page p starts at offset 4096 * p.
 */
module Arenas {
  import Bitmap

  const PGSIZE: nat := 4096
  const HEADER: nat := 12      // sizeof(struct arena) on the 32-bit target
  const DESCRIPTORS: nat := 7  // block sizes 16, 32, ..., 1024

  type DescId = k: nat | k < 7

  /** Block size and number of blocks of each descriptor, as malloc_init computes them. */
  function BlockSize(k: DescId): (n: nat)
    ensures 16 <= n <= 1024
  {
    if k == 0 then 16 else if k == 1 then 32 else if k == 2 then 64 else if k == 3 then 128
    else if k == 4 then 256 else if k == 5 then 512 else 1024
  }

  function BlocksPerArena(k: DescId): (n: nat)
    ensures n == (4096 - 12) / BlockSize(k)
    ensures 3 <= n <= 255
  {
    if k == 0 then 255 else if k == 1 then 127 else if k == 2 then 63 else if k == 3 then 31
    else if k == 4 then 15 else if k == 5 then 7 else 3
  }

  /** Offset of block i within its arena. */
  function Offset(k: DescId, i: nat): nat {
    if i == 0 then 12 else Offset(k, i - 1) + BlockSize(k)
  }

  /** arena_to_block. */
  function BlockAt(p: nat, k: DescId, i: nat): nat {
    4096 * p + Offset(k, i)
  }

  function PageOf(a: nat): nat { a / 4096 }

  /** Where a big block starts: right after the arena header. */
  function BigBlock(p: nat): (a: nat)
    ensures PageOf(a) == p
  {
    4096 * p + 12
  }

  lemma {:induction false} OffsetIsMul(k: DescId, i: nat)
    ensures Offset(k, i) == 12 + i * BlockSize(k)
  {
    if i > 0 {
      OffsetIsMul(k, i - 1);
      assert (i - 1) * BlockSize(k) + BlockSize(k) == i * BlockSize(k);
    }
  }

  lemma {:induction false} OffsetGrows(k: DescId, i: nat, j: nat)
    requires i < j
    ensures Offset(k, i) + BlockSize(k) <= Offset(k, j)
    decreases j
  {
    if i < j - 1 {
      OffsetGrows(k, i, j - 1);
    }
  }

  /** Every block lies inside its page, after the header, where block_to_arena's assertions hold. */
  lemma BlockInside(p: nat, k: DescId, i: nat)
    requires i < BlocksPerArena(k)
    ensures PageOf(BlockAt(p, k, i)) == p
    ensures 12 <= Offset(k, i) && Offset(k, i) + BlockSize(k) <= 4096
    ensures (Offset(k, i) - 12) % BlockSize(k) == 0
  {
    var n := BlocksPerArena(k);
    if i < n - 1 {
      OffsetGrows(k, i, n - 1);
    }
    OffsetIsMul(k, n - 1);
    OffsetIsMul(k, i);
    if i > 0 {
      OffsetGrows(k, 0, i);
    }
    Multiple(i, BlockSize(k));
  }

  lemma Multiple(i: nat, n: nat)
    requires n > 0
    ensures (i * n) % n == 0
  {
    var q, r := (i * n) / n, (i * n) % n;
    assert i * n == n * q + r;
    NoRemainder(i, n, q, r);
  }

  lemma NoRemainder(i: nat, n: nat, q: int, r: nat)
    requires i * n == n * q + r && r < n
    ensures r == 0
  {
    assert (i - q) * n == r;
    if i > q {
      MulGe(i - q, n);
    } else if i < q {
      MulGe(q - i, n);
    }
  }

  lemma MulGe(x: nat, n: nat)
    requires x > 0
    ensures x * n >= n
  {
  }

  /** An arena header: the descriptor and the free count of a page of blocks, or the page count of a big block. */
  datatype Arena = Small(k: DescId, freeCnt: nat) | Big(pages: nat)
  {
    function PageCount(): nat { if Small? then 1 else pages }
  }

  /** The allocator's state: page bitmap, arena headers by page, free lists, and the blocks handed out with the size asked for. */
  datatype Heap = Heap(bits: seq<bool>, arenas: map<nat, Arena>, free: seq<seq<nat>>, live: map<nat, nat>)

  /* ----- the invariant ----- */

  predicate Distinct(q: seq<nat>) {
    forall i, j | 0 <= i < j < |q| :: q[i] != q[j]
  }

  ghost predicate IsBlock(p: nat, k: DescId, a: nat) {
    exists i: nat | i < BlocksPerArena(k) :: a == BlockAt(p, k, i)
  }

  // Page q belongs to some arena.
  ghost predicate Owned(arenas: map<nat, Arena>, q: nat) {
    exists p | p in arenas :: p <= q < p + arenas[p].PageCount()
  }

  // Arenas are runs of pages of the pool that do not overlap.
  ghost predicate PagesInv(h: Heap) {
    && (forall p | p in h.arenas :: h.arenas[p].PageCount() >= 1 && p + h.arenas[p].PageCount() <= |h.bits|)
    && (forall p, q | p in h.arenas && q in h.arenas && p < q :: p + h.arenas[p].PageCount() <= q)
  }

  // A page is marked exactly when an arena or another user of the pool has it, and never both.
  ghost predicate BitsInv(h: Heap, others: set<nat>) {
    && (forall q | 0 <= q < |h.bits| :: h.bits[q] <==> q in others || Owned(h.arenas, q))
    && (forall q | q in others :: q < |h.bits| && !Owned(h.arenas, q))
  }

  ghost predicate FreeBlock(h: Heap, k: DescId, a: nat) {
    && PageOf(a) in h.arenas && h.arenas[PageOf(a)].Small? && h.arenas[PageOf(a)].k == k
    && IsBlock(PageOf(a), k, a) && a !in h.live
  }

  // A free list holds blocks of its own arenas that are not live, each once.
  ghost predicate FreeInv(h: Heap) {
    && |h.free| == 7
    && forall k: DescId :: Distinct(h.free[k]) && forall i | 0 <= i < |h.free[k]| :: FreeBlock(h, k, h.free[k][i])
  }

  ghost predicate LiveBlock(arenas: map<nat, Arena>, a: nat) {
    && PageOf(a) in arenas
    && match arenas[PageOf(a)]
       case Small(k, _) => IsBlock(PageOf(a), k, a)
       case Big(_) => a == BigBlock(PageOf(a))
  }

  ghost predicate LiveInv(h: Heap) {
    && (forall a | a in h.live :: LiveBlock(h.arenas, a))
    && (forall p | p in h.arenas :: h.arenas[p].Big? ==> BigBlock(p) in h.live)
  }

  // The blocks of page p on a free list.
  ghost function FreeIn(q: seq<nat>, p: nat): set<nat> {
    set a | a in q && PageOf(a) == p
  }

  // Every block of an arena is live or on the free list, and free_cnt counts the latter.
  ghost predicate ArenaInv(h: Heap, p: nat)
    requires |h.free| == 7 && p in h.arenas
  {
    match h.arenas[p]
    case Small(k, freeCnt) =>
      && freeCnt == |FreeIn(h.free[k], p)|
      && forall a | IsBlock(p, k, a) :: a in h.live || a in h.free[k]
    case Big(_) => true
  }

  // The invariant inside malloc and free: an arena may be entirely free.
  ghost predicate Loose(h: Heap, others: set<nat>) {
    && PagesInv(h) && BitsInv(h, others) && FreeInv(h) && LiveInv(h)
    && forall p | p in h.arenas :: ArenaInv(h, p)
  }

  // No arena is kept without a live block.
  ghost predicate Tight(h: Heap) {
    forall p | p in h.arenas && h.arenas[p].Small? :: h.arenas[p].freeCnt < BlocksPerArena(h.arenas[p].k)
  }

  /** The invariant between calls. */
  ghost predicate Inv(h: Heap, others: set<nat>) {
    Loose(h, others) && Tight(h)
  }

  /* ----- the elementary changes ----- */

  function Blocks(p: nat, k: DescId): (s: seq<nat>)
    ensures |s| == BlocksPerArena(k)
  {
    seq(BlocksPerArena(k), i requires 0 <= i => BlockAt(p, k, i))
  }

  // A free page becomes an arena of descriptor k; its blocks join the end of the free list.
  function NewArena(h: Heap, p: nat, k: DescId): Heap
    requires |h.free| == 7 && p < |h.bits|
  {
    h.(bits := h.bits[p := true], arenas := h.arenas[p := Small(k, BlocksPerArena(k))],
       free := h.free[k := h.free[k] + Blocks(p, k)])
  }

  // The first free block of descriptor k is handed out.
  function Take(h: Heap, k: DescId, size: nat): Heap
    requires |h.free| == 7 && h.free[k] != []
  {
    var a := h.free[k][0];
    var p := PageOf(a);
    h.(free := h.free[k := h.free[k][1..]], live := h.live[a := size],
       arenas := if p in h.arenas && h.arenas[p].Small? && h.arenas[p].freeCnt > 0
                 then h.arenas[p := Small(h.arenas[p].k, h.arenas[p].freeCnt - 1)] else h.arenas)
  }

  // A live block goes to the front of its free list.
  function Put(h: Heap, a: nat, k: DescId): Heap
    requires |h.free| == 7
  {
    var p := PageOf(a);
    h.(free := h.free[k := [a] + h.free[k]], live := h.live - {a},
       arenas := if p in h.arenas && h.arenas[p].Small? then h.arenas[p := Small(h.arenas[p].k, h.arenas[p].freeCnt + 1)] else h.arenas)
  }

  // A list without the elements of `gone`.
  function WithoutAll(q: seq<nat>, gone: set<nat>): seq<nat> {
    if q == [] then [] else (if q[0] in gone then [] else [q[0]]) + WithoutAll(q[1..], gone)
  }

  // list_remove: the list without one of its elements.
  function RemoveOne(q: seq<nat>, x: nat): seq<nat> {
    if q == [] then [] else if q[0] == x then q[1..] else [q[0]] + RemoveOne(q[1..], x)
  }

  // An arena without live blocks gives its page back.
  function Drop(h: Heap, p: nat, k: DescId): Heap
    requires |h.free| == 7 && p < |h.bits|
  {
    h.(bits := h.bits[p := false], arenas := h.arenas - {p}, free := h.free[k := WithoutAll(h.free[k], set a | a in Blocks(p, k))])
  }

  function NewBig(h: Heap, p: nat, n: nat, size: nat): Heap
    requires p + n <= |h.bits|
  {
    h.(bits := Bitmap.Filled(h.bits, p, n, true), arenas := h.arenas[p := Big(n)], live := h.live[BigBlock(p) := size])
  }

  function DropBig(h: Heap, p: nat, n: nat): Heap
    requires p + n <= |h.bits|
  {
    h.(bits := Bitmap.Filled(h.bits, p, n, false), arenas := h.arenas - {p}, live := h.live - {BigBlock(p)})
  }

  /* ----- facts about blocks ----- */

  lemma IsBlockInside(p: nat, k: DescId, a: nat)
    requires IsBlock(p, k, a)
    ensures PageOf(a) == p && 4096 * p + 12 <= a && a + BlockSize(k) <= 4096 * p + 4096
  {
    var i: nat :| i < BlocksPerArena(k) && a == BlockAt(p, k, i);
    BlockInside(p, k, i);
  }

  // Two blocks of one arena do not overlap.
  lemma BlocksApart(p: nat, k: DescId, a: nat, b: nat)
    requires IsBlock(p, k, a) && IsBlock(p, k, b) && a != b
    ensures a + BlockSize(k) <= b || b + BlockSize(k) <= a
  {
    var i: nat :| i < BlocksPerArena(k) && a == BlockAt(p, k, i);
    var j: nat :| j < BlocksPerArena(k) && b == BlockAt(p, k, j);
    if i < j { OffsetGrows(k, i, j); } else if j < i { OffsetGrows(k, j, i); }
  }

  lemma BlocksDistinct(p: nat, k: DescId)
    ensures Distinct(Blocks(p, k))
    ensures forall a :: a in Blocks(p, k) <==> IsBlock(p, k, a)
  {
    var s := Blocks(p, k);
    forall i, j | 0 <= i < j < |s|
      ensures s[i] != s[j]
    {
      OffsetGrows(k, i, j);
    }
    forall a
      ensures a in s <==> IsBlock(p, k, a)
    {
      if a in s {
        var i :| 0 <= i < |s| && s[i] == a;
        assert a == BlockAt(p, k, i);
      }
      if IsBlock(p, k, a) {
        var i: nat :| i < BlocksPerArena(k) && a == BlockAt(p, k, i);
        assert s[i] == a;
      }
    }
  }

  ghost function Members(q: seq<nat>): set<nat> {
    set a | a in q
  }

  lemma {:induction false} DistinctCard(q: seq<nat>)
    requires Distinct(q)
    ensures |Members(q)| == |q|
    decreases |q|
  {
    if q == [] {
      assert Members(q) == {};
    } else {
      DistinctCard(q[1..]);
      assert q == [q[0]] + q[1..];
      assert q[0] !in Members(q[1..]);
      assert Members(q) == {q[0]} + Members(q[1..]);
    }
  }

  lemma {:induction false} WithoutMembers(q: seq<nat>, gone: set<nat>)
    requires Distinct(q)
    ensures Distinct(WithoutAll(q, gone))
    ensures forall a :: a in WithoutAll(q, gone) <==> a in q && a !in gone
    decreases |q|
  {
    if q != [] {
      WithoutMembers(q[1..], gone);
      assert q == [q[0]] + q[1..];
      assert q[0] !in q[1..];
    }
  }

  // Removing elements one by one is removing them all.
  lemma {:induction false} RemoveStep(q: seq<nat>, gone: set<nat>, x: nat)
    requires Distinct(q) && x !in gone
    ensures RemoveOne(WithoutAll(q, gone), x) == WithoutAll(q, gone + {x})
    decreases |q|
  {
    if q != [] {
      assert q == [q[0]] + q[1..];
      assert q[0] !in q[1..];
      RemoveStep(q[1..], gone, x);
      var w := WithoutAll(q[1..], gone);
      if q[0] == x {
        assert WithoutAll(q, gone)[1..] == w;
        WithoutMembers(q[1..], gone);
        AbsentUnchanged(w, x);
      } else if q[0] !in gone {
        assert WithoutAll(q, gone)[1..] == w;
      } else {
        assert WithoutAll(q, gone) == w && WithoutAll(q, gone + {x}) == WithoutAll(q[1..], gone + {x});
      }
    }
  }

  lemma {:induction false} AbsentUnchanged(q: seq<nat>, x: nat)
    requires x !in q
    ensures RemoveOne(q, x) == q
    decreases |q|
  {
    if q != [] {
      AbsentUnchanged(q[1..], x);
    }
  }

  lemma {:induction false} WithoutNone(q: seq<nat>)
    ensures WithoutAll(q, {}) == q
    decreases |q|
  {
    if q != [] {
      WithoutNone(q[1..]);
    }
  }

  // What is left of a free list when the blocks of one of its arenas are removed.
  lemma DroppedMembers(h: Heap, p: nat, k: DescId)
    requires FreeInv(h) && p < |h.bits|
    ensures Distinct(Drop(h, p, k).free[k])
    ensures forall a :: a in Drop(h, p, k).free[k] <==> a in h.free[k] && PageOf(a) != p
  {
    WithoutMembers(h.free[k], Members(Blocks(p, k)));
    BlocksDistinct(p, k);
    forall a | a in h.free[k]
      ensures a in Members(Blocks(p, k)) <==> PageOf(a) == p
    {
      var i :| 0 <= i < |h.free[k]| && h.free[k][i] == a;
      assert FreeBlock(h, k, h.free[k][i]);
      if a in Blocks(p, k) { IsBlockInside(p, k, a); }
    }
    assert Members(Blocks(p, k)) == set a | a in Blocks(p, k);
  }

  /* ----- a page becomes an arena ----- */

  // What owning means when an arena is added on pages no arena had, and when one is removed.
  lemma OwnedAdd(arenas: map<nat, Arena>, p: nat, x: Arena)
    requires forall q | p <= q < p + x.PageCount() :: !Owned(arenas, q)
    requires forall r | r in arenas :: arenas[r].PageCount() >= 1
    requires x.PageCount() >= 1
    ensures p !in arenas
    ensures forall q: nat :: Owned(arenas[p := x], q) <==> Owned(arenas, q) || p <= q < p + x.PageCount()
  {
    if p in arenas {
      assert Owned(arenas, p);
    }
    forall q: nat
      ensures Owned(arenas[p := x], q) <==> Owned(arenas, q) || p <= q < p + x.PageCount()
    {
      if r :| r in arenas && r <= q < r + arenas[r].PageCount() {
        assert r in arenas[p := x] && arenas[p := x][r] == arenas[r];
      }
      if p <= q < p + x.PageCount() {
        assert p in arenas[p := x];
      }
    }
  }

  lemma OwnedRemove(h: Heap, p: nat)
    requires PagesInv(h) && p in h.arenas
    ensures forall q: nat :: Owned(h.arenas - {p}, q) <==> Owned(h.arenas, q) && !(p <= q < p + h.arenas[p].PageCount())
  {
    forall q: nat
      ensures Owned(h.arenas - {p}, q) <==> Owned(h.arenas, q) && !(p <= q < p + h.arenas[p].PageCount())
    {
      if r :| r in h.arenas && r != p && r <= q < r + h.arenas[r].PageCount() {
        assert r in h.arenas - {p};
      }
    }
  }

  // Pages taken from the bitmap keep arenas apart.
  lemma AddPages(h: Heap, others: set<nat>, p: nat, x: Arena, bits: seq<bool>)
    requires PagesInv(h) && BitsInv(h, others)
    requires x.PageCount() >= 1 && p + x.PageCount() <= |h.bits| == |bits|
    requires forall q | p <= q < p + x.PageCount() :: !h.bits[q]
    requires forall q | 0 <= q < |bits| :: bits[q] == if p <= q < p + x.PageCount() then true else h.bits[q]
    ensures p !in h.arenas
    ensures PagesInv(h.(bits := bits, arenas := h.arenas[p := x])) && BitsInv(h.(bits := bits, arenas := h.arenas[p := x]), others)
  {
    OwnedAdd(h.arenas, p, x);
    var h' := h.(bits := bits, arenas := h.arenas[p := x]);
    forall r, q | r in h'.arenas && q in h'.arenas && r < q
      ensures r + h'.arenas[r].PageCount() <= q
    {
      assert q in h.arenas ==> Owned(h.arenas, q);
      assert r in h.arenas && p < r + h.arenas[r].PageCount() && r <= p ==> Owned(h.arenas, p);
    }
  }

  lemma RemovePages(h: Heap, others: set<nat>, p: nat, bits: seq<bool>)
    requires PagesInv(h) && BitsInv(h, others) && p in h.arenas && |bits| == |h.bits|
    requires forall q | 0 <= q < |bits| :: bits[q] == if p <= q < p + h.arenas[p].PageCount() then false else h.bits[q]
    ensures PagesInv(h.(bits := bits, arenas := h.arenas - {p})) && BitsInv(h.(bits := bits, arenas := h.arenas - {p}), others)
  {
    OwnedRemove(h, p);
    forall q | p <= q < p + h.arenas[p].PageCount()
      ensures Owned(h.arenas, q)
    {
    }
  }

  lemma NewArenaKeeps(h: Heap, others: set<nat>, p: nat, k: DescId)
    requires Loose(h, others) && p < |h.bits| && !h.bits[p]
    ensures Loose(NewArena(h, p, k), others)
    ensures p !in h.arenas && NewArena(h, p, k).free[k] != []
  {
    var h' := NewArena(h, p, k);
    AddPages(h, others, p, Small(k, BlocksPerArena(k)), h'.bits);
    assert PagesInv(h') && BitsInv(h', others);
    NewArenaLists(h, p, k);
  }

  lemma NewArenaLists(h: Heap, p: nat, k: DescId)
    requires FreeInv(h) && LiveInv(h) && (forall r | r in h.arenas :: ArenaInv(h, r)) && p < |h.bits| && p !in h.arenas
    ensures FreeInv(NewArena(h, p, k)) && LiveInv(NewArena(h, p, k))
    ensures forall r | r in NewArena(h, p, k).arenas :: ArenaInv(NewArena(h, p, k), r)
  {
    var h', s := NewArena(h, p, k), Blocks(p, k);
    BlocksDistinct(p, k);
    forall a | a in s ensures PageOf(a) == p && a !in h.live { IsBlockInside(p, k, a); }
    assert forall i | 0 <= i < |h.free[k]| :: PageOf(h.free[k][i]) != p;
    assert FreeInv(h');
    assert FreeIn(h'.free[k], p) == Members(s);
    DistinctCard(s);
    forall r | r in h.arenas
      ensures ArenaInv(h', r)
    {
      assert ArenaInv(h, r);
      assert FreeIn(h'.free[k], r) == FreeIn(h.free[k], r);
    }
  }

  /* ----- a block changes hands ----- */

  lemma FreeInPop(q: seq<nat>, p: nat)
    requires Distinct(q) && q != []
    ensures Distinct(q[1..])
    ensures FreeIn(q[1..], p) == FreeIn(q, p) - {q[0]}
    ensures PageOf(q[0]) == p ==> |FreeIn(q, p)| == |FreeIn(q[1..], p)| + 1
    ensures PageOf(q[0]) != p ==> FreeIn(q[1..], p) == FreeIn(q, p)
  {
    assert q == [q[0]] + q[1..];
    assert q[0] !in q[1..];
    assert PageOf(q[0]) == p ==> FreeIn(q, p) == FreeIn(q[1..], p) + {q[0]};
  }

  lemma FreeInPush(q: seq<nat>, a: nat, p: nat)
    requires Distinct(q) && a !in q
    ensures Distinct([a] + q)
    ensures FreeIn([a] + q, p) == FreeIn(q, p) + (if PageOf(a) == p then {a} else {})
    ensures |FreeIn([a] + q, p)| == |FreeIn(q, p)| + (if PageOf(a) == p then 1 else 0)
  {
    assert forall b :: b in [a] + q <==> b == a || b in q;
  }

  // One step leaves the blocks of page r on the free list of k where they were.
  lemma ArenaFrame(h: Heap, h': Heap, r: nat)
    requires |h.free| == |h'.free| == 7 && r in h.arenas && r in h'.arenas && h'.arenas[r] == h.arenas[r] && ArenaInv(h, r)
    requires h.arenas[r].Small? ==> FreeIn(h'.free[h.arenas[r].k], r) == FreeIn(h.free[h.arenas[r].k], r)
    requires h.arenas[r].Small? ==> forall a | IsBlock(r, h.arenas[r].k, a) :: a in h.live ==> a in h'.live
    ensures ArenaInv(h', r)
  {
    if h.arenas[r].Small? {
      var k := h.arenas[r].k;
      forall a | IsBlock(r, k, a)
        ensures a in h'.live || a in h'.free[k]
      {
        IsBlockInside(r, k, a);
        if a in h.free[k] {
          assert a in FreeIn(h.free[k], r);
          assert a in FreeIn(h'.free[k], r);
        }
      }
    }
  }

  // A page that only blocks of other pages left or joined lists for.
  lemma OtherArena(h: Heap, h': Heap, r: nat, a: nat, k: DescId)
    requires FreeInv(h) && |h'.free| == 7 && r in h.arenas && r in h'.arenas && h'.arenas[r] == h.arenas[r] && ArenaInv(h, r)
    requires PageOf(a) != r
    requires forall j: DescId | j != k :: h'.free[j] == h.free[j]
    requires forall b | b != a :: b in h'.free[k] <==> b in h.free[k]
    requires forall b | b != a :: b in h'.live <==> b in h.live
    ensures ArenaInv(h', r)
  {
    if h.arenas[r].Small? {
      var j := h.arenas[r].k;
      assert FreeIn(h'.free[j], r) == FreeIn(h.free[j], r);
      forall b | IsBlock(r, j, b) ensures b in h.live ==> b in h'.live { IsBlockInside(r, j, b); }
      ArenaFrame(h, h', r);
    }
  }

  lemma FreeFrame(h: Heap, h': Heap, j: DescId, i: nat)
    requires FreeInv(h) && i < |h.free[j]|
    requires h.free[j][i] !in h'.live || h.free[j][i] in h.live
    requires var p := PageOf(h.free[j][i]);
             p in h.arenas ==> p in h'.arenas && h'.arenas[p].Small? == h.arenas[p].Small? && (h.arenas[p].Small? ==> h'.arenas[p].k == h.arenas[p].k)
    ensures FreeBlock(h', j, h.free[j][i])
  {
    assert FreeBlock(h, j, h.free[j][i]);
  }

  lemma LiveFrame(h: Heap, h': Heap, a: nat)
    requires a in h.live && LiveBlock(h.arenas, a)
    requires PageOf(a) in h'.arenas && h'.arenas[PageOf(a)].Small? == h.arenas[PageOf(a)].Small?
    requires h.arenas[PageOf(a)].Small? ==> h'.arenas[PageOf(a)].k == h.arenas[PageOf(a)].k
    ensures LiveBlock(h'.arenas, a)
  {
  }

  /** Handing out the first free block: it becomes live, its arena has one free block fewer. */
  lemma TakeKeeps(h: Heap, others: set<nat>, k: DescId, size: nat)
    requires Loose(h, others) && h.free[k] != []
    ensures Loose(Take(h, k, size), others)
    ensures var a, h' := h.free[k][0], Take(h, k, size);
            && a !in h.live && h'.live == h.live[a := size] && PageOf(a) in h.arenas && IsBlock(PageOf(a), k, a)
            && h.arenas[PageOf(a)].Small? && h.arenas[PageOf(a)].k == k && h.arenas[PageOf(a)].freeCnt > 0
            && h'.arenas == h.arenas[PageOf(a) := Small(k, h.arenas[PageOf(a)].freeCnt - 1)]
  {
    TakeBlock(h, k, size);
    var h', p := Take(h, k, size), PageOf(h.free[k][0]);
    SamePages(h, h', others);
    TakeLists(h, k, size);
    forall r | r in h'.arenas
      ensures ArenaInv(h', r)
    {
      assert ArenaInv(h, r);
      TakeArena(h, k, size, r);
    }
  }

  lemma TakeBlock(h: Heap, k: DescId, size: nat)
    requires FreeInv(h) && h.free[k] != []
    requires forall r | r in h.arenas :: ArenaInv(h, r)
    ensures var a, h' := h.free[k][0], Take(h, k, size);
            && a !in h.live && h'.live == h.live[a := size] && PageOf(a) in h.arenas && IsBlock(PageOf(a), k, a)
            && h.arenas[PageOf(a)].Small? && h.arenas[PageOf(a)].k == k && h.arenas[PageOf(a)].freeCnt > 0
            && h'.arenas == h.arenas[PageOf(a) := Small(k, h.arenas[PageOf(a)].freeCnt - 1)]
  {
    var a := h.free[k][0];
    assert FreeBlock(h, k, a);
    assert ArenaInv(h, PageOf(a));
    assert a in FreeIn(h.free[k], PageOf(a));
  }

  lemma TakeLists(h: Heap, k: DescId, size: nat)
    requires FreeInv(h) && LiveInv(h) && h.free[k] != []
    requires forall r | r in h.arenas :: ArenaInv(h, r)
    ensures FreeInv(Take(h, k, size)) && LiveInv(Take(h, k, size))
  {
    TakeBlock(h, k, size);
    TakeFreeLists(h, k, size);
    TakeLive(h, Take(h, k, size), h.free[k][0]);
  }

  lemma TakeFreeLists(h: Heap, k: DescId, size: nat)
    requires FreeInv(h) && h.free[k] != [] && h.free[k][0] !in h.live
    ensures FreeInv(Take(h, k, size))
  {
    FreeInPop(h.free[k], 0);
    forall j: DescId, i | 0 <= i < |Take(h, k, size).free[j]|
      ensures FreeBlock(Take(h, k, size), j, Take(h, k, size).free[j][i])
    {
      TakeFree(h, k, size, j, i);
    }
  }

  lemma TakeFree(h: Heap, k: DescId, size: nat, j: DescId, i: nat)
    requires FreeInv(h) && h.free[k] != [] && i < |Take(h, k, size).free[j]|
    requires h.free[k][0] !in h.live
    ensures FreeBlock(Take(h, k, size), j, Take(h, k, size).free[j][i])
  {
    var h' := Take(h, k, size);
    var i' := if j == k then i + 1 else i;
    assert h'.free[j][i] == h.free[j][i'];
    assert FreeBlock(h, j, h.free[j][i']) && FreeBlock(h, k, h.free[k][0]);
    assert h.free[j][i'] != h.free[k][0];
    FreeFrame(h, h', j, i');
  }

  lemma TakeLive(h: Heap, h': Heap, a: nat)
    requires LiveInv(h) && PageOf(a) in h.arenas && h.arenas[PageOf(a)].Small? && IsBlock(PageOf(a), h.arenas[PageOf(a)].k, a)
    requires h'.live.Keys == h.live.Keys + {a} && h'.arenas.Keys == h.arenas.Keys
    requires forall p | p in h.arenas :: h'.arenas[p].Small? == h.arenas[p].Small? && (h.arenas[p].Small? ==> h'.arenas[p].k == h.arenas[p].k)
    ensures LiveInv(h')
  {
    forall b | b in h'.live
      ensures LiveBlock(h'.arenas, b)
    {
      if b != a { LiveFrame(h, h', b); }
    }
  }

  lemma TakeArena(h: Heap, k: DescId, size: nat, r: nat)
    requires FreeInv(h) && h.free[k] != [] && r in h.arenas
    requires forall r | r in h.arenas :: ArenaInv(h, r)
    ensures r in Take(h, k, size).arenas && ArenaInv(Take(h, k, size), r)
  {
    TakeBlock(h, k, size);
    var q, h' := h.free[k], Take(h, k, size);
    FreeInPop(q, r);
    assert ArenaInv(h, r);
    assert forall b | b != q[0] :: b in h'.free[k] <==> b in h.free[k];
    if PageOf(q[0]) != r {
      OtherArena(h, h', r, q[0], k);
    }
  }

  /** Taking a block back. */
  lemma PutKeeps(h: Heap, others: set<nat>, a: nat, k: DescId)
    requires Loose(h, others) && a in h.live && PageOf(a) in h.arenas && h.arenas[PageOf(a)].Small? && h.arenas[PageOf(a)].k == k
    ensures Loose(Put(h, a, k), others)
    ensures Put(h, a, k).arenas == h.arenas[PageOf(a) := Small(k, h.arenas[PageOf(a)].freeCnt + 1)]
  {
    var h' := Put(h, a, k);
    SamePages(h, h', others);
    NotFree(h, a, k);
    PutLists(h, a, k);
    forall r | r in h'.arenas
      ensures ArenaInv(h', r)
    {
      assert ArenaInv(h, r);
      PutArena(h, a, k, r);
    }
  }

  lemma PutArena(h: Heap, a: nat, k: DescId, r: nat)
    requires FreeInv(h) && a in h.live && PageOf(a) in h.arenas && h.arenas[PageOf(a)].Small? && h.arenas[PageOf(a)].k == k
    requires r in h.arenas && ArenaInv(h, r) && a !in h.free[k]
    ensures r in Put(h, a, k).arenas && ArenaInv(Put(h, a, k), r)
  {
    var h' := Put(h, a, k);
    FreeInPush(h.free[k], a, r);
    assert forall b :: b in h'.free[k] <==> b == a || b in h.free[k];
    if PageOf(a) != r {
      OtherArena(h, h', r, a, k);
    }
  }

  lemma NotFree(h: Heap, a: nat, k: DescId)
    requires FreeInv(h) && a in h.live
    ensures a !in h.free[k]
  {
    forall i | 0 <= i < |h.free[k]|
      ensures h.free[k][i] != a
    {
      assert FreeBlock(h, k, h.free[k][i]);
    }
  }

  lemma PutFree(h: Heap, a: nat, k: DescId, j: DescId, i: nat)
    requires FreeInv(h) && a in h.live && LiveBlock(h.arenas, a) && h.arenas[PageOf(a)].Small? && h.arenas[PageOf(a)].k == k
    requires i < |Put(h, a, k).free[j]|
    ensures FreeBlock(Put(h, a, k), j, Put(h, a, k).free[j][i])
  {
    var h' := Put(h, a, k);
    if j == k && i == 0 {
      assert h'.free[j][i] == a;
    } else {
      var i' := if j == k then i - 1 else i;
      assert h'.free[j][i] == h.free[j][i'];
      FreeFrame(h, h', j, i');
    }
  }

  lemma PutLists(h: Heap, a: nat, k: DescId)
    requires FreeInv(h) && LiveInv(h) && a in h.live && PageOf(a) in h.arenas && h.arenas[PageOf(a)].Small? && h.arenas[PageOf(a)].k == k
    ensures FreeInv(Put(h, a, k)) && LiveInv(Put(h, a, k))
  {
    var h' := Put(h, a, k);
    NotFree(h, a, k);
    FreeInPush(h.free[k], a, 0);
    assert LiveBlock(h.arenas, a);
    forall j: DescId, i | 0 <= i < |h'.free[j]|
      ensures FreeBlock(h', j, h'.free[j][i])
    {
      PutFree(h, a, k, j, i);
    }
    PutLive(h, a, k);
  }

  lemma PutLive(h: Heap, a: nat, k: DescId)
    requires LiveInv(h) && |h.free| == 7 && a in h.live && PageOf(a) in h.arenas && h.arenas[PageOf(a)].Small? && h.arenas[PageOf(a)].k == k
    ensures LiveInv(Put(h, a, k))
  {
    var h' := Put(h, a, k);
    forall b | b in h'.live
      ensures LiveBlock(h'.arenas, b)
    {
      LiveFrame(h, h', b);
    }
    forall r | r in h'.arenas && h'.arenas[r].Big?
      ensures BigBlock(r) in h'.live
    {
      assert BigBlock(r) != a;
    }
  }

  // Only the counts of arenas changed, not which pages they have.
  lemma SamePages(h: Heap, h': Heap, others: set<nat>)
    requires PagesInv(h) && BitsInv(h, others)
    requires h'.bits == h.bits && h'.arenas.Keys == h.arenas.Keys
    requires forall p | p in h.arenas :: h'.arenas[p].PageCount() == h.arenas[p].PageCount()
    ensures PagesInv(h') && BitsInv(h', others)
  {
    forall q: nat
      ensures Owned(h'.arenas, q) <==> Owned(h.arenas, q)
    {
      if p :| p in h.arenas && p <= q < p + h.arenas[p].PageCount() {
        assert p in h'.arenas;
      }
    }
  }

  /** When free_cnt reaches the number of blocks, every block of the arena is on the free list and none is live. */
  lemma AllFree(h: Heap, others: set<nat>, p: nat)
    requires Loose(h, others) && p in h.arenas && h.arenas[p].Small?
    ensures h.arenas[p].freeCnt <= BlocksPerArena(h.arenas[p].k)
    ensures h.arenas[p].freeCnt == BlocksPerArena(h.arenas[p].k) ==>
      forall a | IsBlock(p, h.arenas[p].k, a) :: a in h.free[h.arenas[p].k] && a !in h.live
  {
    var k := h.arenas[p].k;
    var all, mine := Members(Blocks(p, k)), FreeIn(h.free[k], p);
    BlocksDistinct(p, k);
    DistinctCard(Blocks(p, k));
    assert ArenaInv(h, p);
    forall a | a in mine
      ensures a in all && a !in h.live
    {
      var i :| 0 <= i < |h.free[k]| && h.free[k][i] == a;
      assert FreeBlock(h, k, h.free[k][i]);
    }
    SubsetCard(mine, all);
  }

  lemma SubsetCard(a: set<nat>, b: set<nat>)
    requires a <= b
    ensures |a| <= |b|
    ensures |a| == |b| ==> a == b
  {
    assert b == a + (b - a);
  }

  /** Giving a page of free blocks back. */
  lemma DropKeeps(h: Heap, others: set<nat>, p: nat, k: DescId)
    requires Loose(h, others) && p in h.arenas && h.arenas[p] == Small(k, BlocksPerArena(k))
    ensures p < |h.bits| && Loose(Drop(h, p, k), others)
  {
    var h' := Drop(h, p, k);
    AllFree(h, others, p);
    RemovePages(h, others, p, h'.bits);
    forall a | a in h.live
      ensures PageOf(a) != p
    {
      assert LiveBlock(h.arenas, a);
    }
    DropLists(h, p, k);
    forall r | r in h'.arenas
      ensures ArenaInv(h', r)
    {
      assert ArenaInv(h, r);
      DroppedMembers(h, p, k);
      if h.arenas[r].Small? {
        assert FreeIn(h'.free[h.arenas[r].k], r) == FreeIn(h.free[h.arenas[r].k], r);
      }
      ArenaFrame(h, h', r);
    }
  }

  lemma DropLists(h: Heap, p: nat, k: DescId)
    requires FreeInv(h) && LiveInv(h) && p in h.arenas && h.arenas[p].Small? && h.arenas[p].k == k && p < |h.bits|
    requires forall a | a in h.live :: PageOf(a) != p
    ensures FreeInv(Drop(h, p, k)) && LiveInv(Drop(h, p, k))
  {
    var h' := Drop(h, p, k);
    DroppedMembers(h, p, k);
    forall j: DescId, b | b in h'.free[j]
      ensures FreeBlock(h', j, b)
    {
      assert b in h.free[j];
      var i :| 0 <= i < |h.free[j]| && h.free[j][i] == b;
      assert FreeBlock(h, j, b);
      FreeFrame(h, h', j, i);
    }
    forall j: DescId, i | 0 <= i < |h'.free[j]|
      ensures FreeBlock(h', j, h'.free[j][i])
    {
      assert h'.free[j][i] in h'.free[j];
    }
    forall b | b in h'.live
      ensures LiveBlock(h'.arenas, b)
    {
      LiveFrame(h, h', b);
    }
  }

  lemma NewBigKeeps(h: Heap, others: set<nat>, p: nat, n: nat, size: nat)
    requires Loose(h, others) && n >= 1 && Bitmap.AllAre(h.bits, p, n, false)
    ensures Loose(NewBig(h, p, n, size), others)
    ensures p !in h.arenas && BigBlock(p) !in h.live
  {
    var h', a := NewBig(h, p, n, size), BigBlock(p);
    AddPages(h, others, p, Big(n), h'.bits);
    assert a !in h.live by {
      forall b | b in h.live ensures b != a { assert LiveBlock(h.arenas, b); }
    }
    BigLists(h, h', p, a);
    forall r | r in h.arenas
      ensures ArenaInv(h', r)
    {
      assert ArenaInv(h, r);
      ArenaFrame(h, h', r);
    }
  }

  lemma BigLists(h: Heap, h': Heap, p: nat, a: nat)
    requires FreeInv(h) && LiveInv(h) && PageOf(a) == p && p !in h.arenas && a == BigBlock(p)
    requires h'.free == h.free && h'.live.Keys == h.live.Keys + {a} && p in h'.arenas && h'.arenas[p].Big?
    requires forall r | r in h.arenas :: r in h'.arenas && h'.arenas[r] == h.arenas[r]
    requires forall r | r in h'.arenas && r != p :: r in h.arenas
    ensures FreeInv(h') && LiveInv(h')
  {
    forall j: DescId, i | 0 <= i < |h.free[j]|
      ensures FreeBlock(h', j, h'.free[j][i])
    {
      assert FreeBlock(h, j, h.free[j][i]);
    }
    forall b | b in h'.live
      ensures LiveBlock(h'.arenas, b)
    {
      if b in h.live { LiveFrame(h, h', b); }
    }
  }

  lemma DropBigKeeps(h: Heap, others: set<nat>, p: nat)
    requires Loose(h, others) && p in h.arenas && h.arenas[p].Big?
    ensures p + h.arenas[p].pages <= |h.bits| && Loose(DropBig(h, p, h.arenas[p].pages), others)
  {
    var n, a := h.arenas[p].pages, BigBlock(p);
    var h' := DropBig(h, p, n);
    RemovePages(h, others, p, h'.bits);
    DropBigLists(h, h', p, a);
    DropBigArenas(h, h', p, a);
  }

  lemma DropBigArenas(h: Heap, h': Heap, p: nat, a: nat)
    requires |h.free| == 7 && h'.free == h.free && h'.live == h.live - {a} && h'.arenas == h.arenas - {p} && PageOf(a) == p
    requires forall r | r in h.arenas :: ArenaInv(h, r)
    ensures forall r | r in h'.arenas :: ArenaInv(h', r)
  {
    forall r | r in h'.arenas
      ensures ArenaInv(h', r)
    {
      assert ArenaInv(h, r);
      DropBigArena(h, h', r, a);
    }
  }

  lemma DropBigArena(h: Heap, h': Heap, r: nat, a: nat)
    requires |h.free| == 7 && h'.free == h.free && r in h.arenas && r in h'.arenas && h'.arenas[r] == h.arenas[r] && ArenaInv(h, r)
    requires h'.live == h.live - {a} && PageOf(a) != r
    ensures ArenaInv(h', r)
  {
    if h.arenas[r].Small? {
      forall b | IsBlock(r, h.arenas[r].k, b) ensures b != a { IsBlockInside(r, h.arenas[r].k, b); }
    }
    ArenaFrame(h, h', r);
  }

  lemma DropBigLists(h: Heap, h': Heap, p: nat, a: nat)
    requires FreeInv(h) && LiveInv(h) && PageOf(a) == p && p in h.arenas && h.arenas[p].Big? && a == BigBlock(p)
    requires h'.free == h.free && h'.live == h.live - {a} && h'.arenas == h.arenas - {p}
    ensures FreeInv(h') && LiveInv(h')
  {
    forall j: DescId, i | 0 <= i < |h.free[j]|
      ensures FreeBlock(h', j, h'.free[j][i])
    {
      assert FreeBlock(h, j, h.free[j][i]);
    }
    forall b | b in h'.live
      ensures LiveBlock(h'.arenas, b)
    {
      assert LiveBlock(h.arenas, b);
      LiveFrame(h, h', b);
    }
    forall r | r in h'.arenas && h'.arenas[r].Big?
      ensures BigBlock(r) in h'.live
    {
      assert BigBlock(r) != a;
    }
  }

  /* ----- what the invariant means for the callers ----- */

  /** block_size: the number of bytes a live block may use. */
  function Capacity(arenas: map<nat, Arena>, a: nat): nat {
    if PageOf(a) !in arenas then 0
    else match arenas[PageOf(a)]
         case Small(k, _) => BlockSize(k)
         case Big(pages) => if pages == 0 then 0 else 4096 * pages - 12
  }

  // A live block lies within its arena's pages, after the header.
  lemma LiveInside(h: Heap, others: set<nat>, a: nat)
    requires Loose(h, others) && a in h.live
    ensures PageOf(a) in h.arenas && h.arenas[PageOf(a)].PageCount() >= 1
    ensures var p := PageOf(a);
      && 4096 * p + 12 <= a && a + Capacity(h.arenas, a) <= 4096 * (p + h.arenas[p].PageCount())
      && p + h.arenas[p].PageCount() <= |h.bits|
  {
    assert LiveBlock(h.arenas, a);
    if h.arenas[PageOf(a)].Small? {
      IsBlockInside(PageOf(a), h.arenas[PageOf(a)].k, a);
    }
  }

  /** Live blocks do not overlap. */
  lemma LiveApart(h: Heap, others: set<nat>, a: nat, b: nat)
    requires Loose(h, others) && a in h.live && b in h.live && a != b
    ensures a + Capacity(h.arenas, a) <= b || b + Capacity(h.arenas, b) <= a
  {
    LiveInside(h, others, a);
    LiveInside(h, others, b);
    assert LiveBlock(h.arenas, a) && LiveBlock(h.arenas, b);
    var p := PageOf(a);
    if PageOf(b) == p {
      if h.arenas[p].Small? {
        BlocksApart(p, h.arenas[p].k, a, b);
      }
    }
  }

  /** A live block and a free block do not overlap. */
  lemma FreeApart(h: Heap, others: set<nat>, a: nat, k: DescId, b: nat)
    requires Loose(h, others) && a in h.live && b in h.free[k]
    ensures a + Capacity(h.arenas, a) <= b || b + BlockSize(k) <= a
    ensures PageOf(b) in h.arenas && 4096 * PageOf(b) + 12 <= b && b + BlockSize(k) <= 4096 * |h.bits|
  {
    LiveInside(h, others, a);
    assert LiveBlock(h.arenas, a);
    var i :| 0 <= i < |h.free[k]| && h.free[k][i] == b;
    assert FreeBlock(h, k, h.free[k][i]);
    IsBlockInside(PageOf(b), k, b);
    if PageOf(b) == PageOf(a) {
      BlocksApart(PageOf(a), k, a, b);
    }
  }

  lemma MissingMember(a: set<nat>, b: set<nat>) returns (x: nat)
    requires |a| < |b|
    ensures x in b && x !in a
  {
    if b <= a {
      SubsetCard(b, a);
    }
    x :| x in b && x !in a;
  }

  /** Between calls every arena holds a live block. */
  lemma ArenaHasLive(h: Heap, others: set<nat>, p: nat) returns (a: nat)
    requires Inv(h, others) && p in h.arenas
    ensures a in h.live && PageOf(a) == p
  {
    assert ArenaInv(h, p);
    if h.arenas[p].Big? {
      a := BigBlock(p);
    } else {
      var k := h.arenas[p].k;
      BlocksDistinct(p, k);
      DistinctCard(Blocks(p, k));
      a := MissingMember(FreeIn(h.free[k], p), Members(Blocks(p, k)));
      IsBlockInside(p, k, a);
    }
  }

  /** Once every block has been freed the allocator owns no page: the bitmap is what the other users of the pool made it. */
  lemma NothingLeft(h: Heap, others: set<nat>)
    requires Inv(h, others) && h.live == map[]
    ensures h.arenas == map[]
    ensures forall q | 0 <= q < |h.bits| :: h.bits[q] <==> q in others
    ensures forall k: DescId :: h.free[k] == []
  {
    forall k: DescId
      ensures h.free[k] != [] ==> PageOf(h.free[k][0]) in h.arenas
    {
      FreeListOwned(h, k);
    }
    if p :| p in h.arenas {
      var a := ArenaHasLive(h, others, p);
    }
    assert forall q: nat :: !Owned(h.arenas, q);
  }

  lemma FreeListOwned(h: Heap, k: DescId)
    requires FreeInv(h)
    ensures h.free[k] != [] ==> PageOf(h.free[k][0]) in h.arenas
  {
    if h.free[k] != [] {
      assert FreeBlock(h, k, h.free[k][0]);
    }
  }

  /* ----- which bytes belong to live blocks ----- */

  /** Byte o is part of a live block. */
  ghost predicate InLive(h: Heap, o: nat) {
    exists b | b in h.live :: b <= o < b + Capacity(h.arenas, b)
  }

  /** None of the n bytes from s on is part of a live block. */
  ghost predicate Quiet(h: Heap, s: nat, n: nat) {
    forall b | b in h.live :: b + Capacity(h.arenas, b) <= s || s + n <= b
  }

  // The links inside a free block.
  lemma LinksQuiet(h: Heap, others: set<nat>, k: DescId, b: nat)
    requires Loose(h, others) && b in h.free[k]
    ensures Quiet(h, b, 8) && b + 8 <= 4096 * |h.bits|
  {
    var i :| 0 <= i < |h.free[k]| && h.free[k][i] == b;
    assert FreeBlock(h, k, h.free[k][i]);
    IsBlockInside(PageOf(b), k, b);
    forall a | a in h.live
      ensures a + Capacity(h.arenas, a) <= b || b + 8 <= a
    {
      FreeApart(h, others, a, k, b);
    }
  }

  // The header of an arena.
  lemma HeaderQuiet(h: Heap, others: set<nat>, p: nat)
    requires Loose(h, others) && p in h.arenas
    ensures Quiet(h, 4096 * p, 12) && 4096 * p + 12 <= 4096 * |h.bits|
  {
    forall a | a in h.live
      ensures a + Capacity(h.arenas, a) <= 4096 * p || 4096 * p + 12 <= a
    {
      LiveInside(h, others, a);
    }
  }

  // Pages no arena has.
  lemma UnownedQuiet(h: Heap, others: set<nat>, p: nat, n: nat)
    requires Loose(h, others) && n >= 1
    requires forall q | p <= q < p + n :: !Owned(h.arenas, q)
    ensures Quiet(h, 4096 * p, 4096 * n)
  {
    forall a | a in h.live
      ensures a + Capacity(h.arenas, a) <= 4096 * p || 4096 * p + 4096 * n <= a
    {
      LiveInside(h, others, a);
      var r := PageOf(a);
      assert r in h.arenas;
      if p < r + h.arenas[r].PageCount() && r < p + n {
        assert Owned(h.arenas, if p <= r then r else p);
      }
    }
  }
}
