/**
 The kernel allocator: malloc, realloc and free over the page allocator. Its books, arena
 headers and the links of free blocks, are in the memory it manages and are read from there;
 the ghost fields say what they stand for. Addresses are offsets into the kernel page pool;
 None is the null pointer. Sizes are 32-bit.
 */
module Malloc {
  import Bitmap
  import opened Arenas
  import opened InBand

  datatype Desc = Desc(blockSize: nat, blocksPerArena: nat)

  /** The number of pages malloc asks for to hold a big block, computed in 32-bit arithmetic. */
  function BigPages(size: nat): nat {
    (size + 12 + 4095) % 0x1_0000_0000 / 4096
  }

  /** The descriptor malloc chooses: the smallest block size that is large enough. */
  function DescFor(size: nat): (k: nat)
    ensures k <= 7
    ensures k < 7 ==> BlockSize(k) >= size
    ensures forall j: DescId | j < k :: BlockSize(j) < size
  {
    if size <= 16 then 0 else if size <= 32 then 1 else if size <= 64 then 2 else if size <= 128 then 3
    else if size <= 256 then 4 else if size <= 512 then 5 else if size <= 1024 then 6 else 7
  }

  /** Big blocks are large enough unless the size computation wrapped around to one page. */
  lemma BigPagesEnough(size: nat)
    requires 1024 < size < 0x1_0000_0000
    ensures BigPages(size) >= 1 ==> (4096 * BigPages(size) - 12 >= size <==> size < 0xFFFF_FFF5)
    ensures BigPages(size) == 0 <==> 0xFFFF_EFF5 <= size < 0xFFFF_FFF5
  {
  }

  /** n pages are just enough for size bytes behind an arena header. */
  predicate LeastPages(size: nat, n: nat) { 4096 * (n - 1) < size + 12 <= 4096 * n }

  /** Big blocks take no more pages than they need. */
  lemma BigPagesLeast(size: nat)
    requires 1024 < size < 0xFFFF_EFF5
    ensures LeastPages(size, BigPages(size))
  {
  }

  lemma LeastPagesOnce(size: nat, n: nat, n': nat)
    requires LeastPages(size, n) && LeastPages(size, n')
    ensures n == n'
  {
  }

  /** Small blocks have the smallest power of two that is large enough, 16 at least. */
  lemma SmallBlocks(size: nat)
    requires 0 < size <= 1024
    ensures size <= CapacityFor(size) && (CapacityFor(size) == 16 || CapacityFor(size) < 2 * size)
    ensures CapacityFor(size) in [16, 32, 64, 128, 256, 512, 1024]
  {
  }

  /** The capacity of the block malloc hands out for size. */
  function CapacityFor(size: nat): int {
    if DescFor(size) < 7 then BlockSize(DescFor(size)) else 4096 * BigPages(size) - 12
  }

  /** A block malloc hands out is large enough exactly for the sizes whose page count does not wrap around. */
  lemma CapacityEnough(size: nat)
    requires size < 0x1_0000_0000 && CapacityFor(size) >= 0
    ensures CapacityFor(size) >= size <==> size < 0xFFFF_FFF5
    ensures size >= 0xFFFF_FFF5 ==> CapacityFor(size) == 4084
  {
  }

  /** What realloc copies fits into the new block unless the size wrapped around and the old block has more than one page. */
  lemma CopyFits(oldCapacity: nat, newSize: nat)
    requires newSize < 0x1_0000_0000 && CapacityFor(newSize) >= 0
    ensures Min(newSize, oldCapacity) <= CapacityFor(newSize) <==> newSize < 0xFFFF_FFF5 || oldCapacity <= 4084
  {
  }

  function Min(a: nat, b: nat): nat { if a < b then a else b }

  /** No run of n free pages. */
  ghost predicate NoPages(h: Heap, n: nat) {
    Bitmap.FirstGroup(h.bits, 0, n, false, Bitmap.None)
  }

  /** Every run of n pages has a page in use. */
  ghost predicate NoRun(bits: seq<bool>, n: nat) {
    forall p: nat :: !Bitmap.AllAre(bits, p, n, false)
  }

  /** Where malloc finds a block. */
  ghost predicate Chosen(h: Heap, size: nat, a: nat)
    requires |h.free| == 7
  {
    var k := DescFor(size);
    if k < 7 && h.free[k] != [] then a == h.free[k][0]
    else a >= 12 && a % 4096 == 12 && Bitmap.FirstGroup(h.bits, 0, if k < 7 then 1 else BigPages(size), false, Bitmap.Some((a - 12) / 4096))
  }

  // The first block of the free list, or of a new arena if the list is empty.
  ghost predicate FirstOf(h: Heap, k: DescId, a: nat)
    requires |h.free| == 7
  {
    if h.free[k] != [] then a == h.free[k][0]
    else a >= 12 && a % 4096 == 12 && Bitmap.FirstGroup(h.bits, 0, 1, false, Bitmap.Some((a - 12) / 4096))
  }

  lemma FirstOfNew(h: Heap, p: nat, k: DescId)
    requires |h.free| == 7 && h.free[k] == [] && p < |h.bits| && Bitmap.FirstGroup(h.bits, 0, 1, false, Bitmap.Some(p))
    ensures FirstOf(h, k, NewArena(h, p, k).free[k][0])
  {
    assert Blocks(p, k)[0] == 4096 * p + 12;
    assert ([] + Blocks(p, k))[0] == Blocks(p, k)[0];
  }

  lemma FirstIsChosen(h: Heap, size: nat, k: DescId, a: nat)
    requires |h.free| == 7 && FirstOf(h, k, a)
    ensures k == DescFor(size) ==> Chosen(h, size, a)
  {
  }

  lemma BigIsChosen(h: Heap, size: nat, p: nat)
    requires |h.free| == 7 && 1024 < size && Bitmap.FirstGroup(h.bits, 0, BigPages(size), false, Bitmap.Some(p))
    ensures Chosen(h, size, BigBlock(p))
  {
  }

  lemma NoRoomIsNoRun(h: Heap, size: nat, n: nat)
    requires |h.free| == 7 && 1024 < size < 0xFFFF_EFF5 && LeastPages(size, n)
    ensures NoRoom(h, size) <==> NoRun(h.bits, n)
  {
    BigPagesLeast(size);
    LeastPagesOnce(size, n, BigPages(size));
  }

  /** When malloc returns a null pointer. */
  ghost predicate NoRoom(h: Heap, size: nat)
    requires |h.free| == 7
  {
    var k := DescFor(size);
    if size == 0 then true
    else if k < 7 then h.free[k] == [] && NoPages(h, 1)
    else BigPages(size) == 0 || NoPages(h, BigPages(size))
  }

  // Every arena has a live block, except possibly the one the first free block of k is in.
  ghost predicate AlmostTight(h: Heap, k: DescId)
    requires |h.free| == 7 && h.free[k] != []
  {
    forall p | p in h.arenas && h.arenas[p].Small? && p != PageOf(h.free[k][0]) :: h.arenas[p].freeCnt < BlocksPerArena(h.arenas[p].k)
  }

  // The callers' view of h is unchanged in h'.
  ghost predicate SameBlocks(h: Heap, h': Heap) {
    && h'.live == h.live
    && (forall b | b in h.live :: Capacity(h'.arenas, b) == Capacity(h.arenas, b))
    && (forall o: nat | InLive(h, o) :: InLive(h', o))
  }

  lemma ArenaMade(h: Heap, others: set<nat>, p: nat, k: DescId)
    requires Inv(h, others) && h.free[k] == [] && p < |h.bits| && !h.bits[p]
    ensures var mid := NewArena(h, p, k); Loose(mid, others) && mid.free[k] != [] && AlmostTight(mid, k) && SameBlocks(h, mid)
  {
    var mid := NewArena(h, p, k);
    hide Loose, Blocks, BlockSize, BlocksPerArena, LiveBlock, InLive;
    NewArenaKeeps(h, others, p, k);
    FirstBlock(h, p, k);
    LiveElsewhere(h, others, p);
    SameInLive(h, mid);
  }

  lemma FirstBlock(h: Heap, p: nat, k: DescId)
    requires |h.free| == 7 && h.free[k] == [] && p < |h.bits|
    ensures NewArena(h, p, k).free[k] != [] && PageOf(NewArena(h, p, k).free[k][0]) == p
  {
    assert NewArena(h, p, k).free[k][0] == Blocks(p, k)[0];
    BlockInside(p, k, 0);
  }

  lemma ArenaOwnsPage(h: Heap, p: nat)
    requires PagesInv(h)
    ensures p in h.arenas ==> Owned(h.arenas, p)
  {
    if p in h.arenas {
      assert p <= p < p + h.arenas[p].PageCount();
    }
  }

  // Live blocks are on the pages of arenas.
  lemma LiveElsewhere(h: Heap, others: set<nat>, p: nat)
    requires Loose(h, others) && p < |h.bits| && !h.bits[p]
    ensures |h.free| == 7 && p !in h.arenas
    ensures forall b | b in h.live :: PageOf(b) in h.arenas && PageOf(b) != p
  {
    PageUnowned(h, others, p);
    ArenaOwnsPage(h, p);
    forall b | b in h.live
      ensures PageOf(b) in h.arenas
    {
      assert LiveBlock(h.arenas, b);
    }
  }

  lemma BlockTaken(h: Heap, others: set<nat>, k: DescId, size: nat)
    requires Loose(h, others) && h.free[k] != [] && AlmostTight(h, k)
    ensures var a, t := h.free[k][0], Take(h, k, size);
            && Inv(t, others) && a !in h.live && t.live == h.live[a := size] && Capacity(t.arenas, a) == BlockSize(k)
            && forall b | b in h.live :: Capacity(t.arenas, b) == Capacity(h.arenas, b)
  {
    TakeKeeps(h, others, k, size);
    var a, t := h.free[k][0], Take(h, k, size);
    AllFree(h, others, PageOf(a));
    hide Loose, IsBlock;
  }

  lemma BigKeeps(h: Heap, others: set<nat>, p: nat, n: nat, size: nat)
    requires Inv(h, others) && n >= 1 && Bitmap.AllAre(h.bits, p, n, false)
    ensures var a, t := BigBlock(p), NewBig(h, p, n, size);
            && Inv(t, others) && a !in h.live && t.live == h.live[a := size] && Capacity(t.arenas, a) == 4096 * n - 12
            && forall b | b in h.live :: Capacity(t.arenas, b) == Capacity(h.arenas, b)
    ensures Quiet(h, 4096 * p, 4096 * n)
  {
    NewBigKeeps(h, others, p, n, size);
    UnownedQuiet(h, others, p, n);
    forall b | b in h.live
      ensures PageOf(b) != p
    {
      assert LiveBlock(h.arenas, b);
    }
  }

  class Allocator {
    const pool: Bitmap.Map
    const mem: array<Byte>
    const layout: Layout
    var descs: seq<Desc>
    var firsts: seq<nat>             // the ends of the descriptors' free lists
    var lasts: seq<nat>
    ghost var arenas: map<nat, Arena>
    ghost var free: seq<seq<nat>>
    ghost var live: map<nat, nat>    // blocks handed out, with the size asked for
    ghost var others: set<nat>       // pages other users of the pool hold

    ghost function H(): Heap
      reads this, pool, pool.bits
    {
      Heap(pool.bits[..], arenas, free, live)
    }

    // Memory says what the ghost fields say.
    ghost predicate Books()
      reads this, mem
    {
      && Good(layout, mem.Length) && |firsts| == |lasts| == |free| == 7
      && Encodes(layout, mem[..], firsts, lasts, arenas, free)
    }

    ghost predicate Sound()
      reads this, pool, pool.bits, mem
    {
      && mem.Length == 4096 * pool.bits.Length
      && |free| == |descs| == 7 && (forall k: DescId :: descs[k] == Desc(BlockSize(k), BlocksPerArena(k)))
      && Loose(H(), others) && Books()
    }

    ghost predicate Valid()
      reads this, pool, pool.bits, mem
    {
      Sound() && Tight(H())
    }

    // Every live block has the capacity its size calls for.
    ghost predicate AsAsked()
      reads this
    {
      Sized(arenas, live)
    }

    /** malloc_init over a pool of n pages that nobody uses yet. */
    constructor (n: nat, layout: Layout)
      requires Good(layout, 4096 * n)
      ensures Valid() && AsAsked() && live == map[] && others == {} && fresh(pool) && fresh(pool.bits) && fresh(mem)
      ensures pool.bits.Length == n && this.layout == layout
    {
      pool := new Bitmap.Map(n);
      mem := new Byte[4096 * n];
      this.layout := layout;
      descs, firsts, lasts, free := [], [], [], [];
      arenas, live, others := map[], map[], {};
      new;
      hide Loose;
      var blockSize := 16;
      while blockSize < 4096 / 2
        invariant |descs| == |firsts| == |lasts| == |free| <= 7
        invariant blockSize == if |descs| < 7 then BlockSize(|descs|) else 2048
        invariant forall k: DescId | k < |descs| :: descs[k] == Desc(BlockSize(k), BlocksPerArena(k)) && free[k] == []
        invariant forall k: DescId | k < |descs| :: firsts[k] == TailPtr(layout, k) && lasts[k] == HeadPtr(layout, k)
        invariant fresh(pool) && fresh(pool.bits) && fresh(mem)
        invariant arenas == map[] && live == map[] && others == {}
        invariant forall i | 0 <= i < n :: !pool.bits[i]
        decreases 4096 - blockSize
      {
        assert |descs| < 7;
        firsts := firsts + [TailPtr(layout, |descs|)];
        lasts := lasts + [HeadPtr(layout, |descs|)];
        descs := descs + [Desc(blockSize, (4096 - 12) / blockSize)];
        free := free + [[]];
        blockSize := blockSize * 2;
      }
      assert |descs| == 7;
      NothingYet(H());
    }

    /* ----- words and links ----- */

    method ReadWord(o: nat) returns (w: nat)
      requires o + 4 <= mem.Length
      ensures w == Word(mem[..], o) && w < 0x1_0000_0000
    {
      w := mem[o] as int + 0x100 * (mem[o + 1] as int) + 0x1_0000 * (mem[o + 2] as int) + 0x100_0000 * (mem[o + 3] as int);
    }

    method WriteWord(o: nat, w: nat)
      requires o + 4 <= mem.Length && w < 0x1_0000_0000
      modifies mem
      ensures mem[..] == SetWord(old(mem[..]), o, w)
    {
      mem[o], mem[o + 1], mem[o + 2], mem[o + 3] := w % 0x100, w / 0x100 % 0x100, w / 0x1_0000 % 0x100, w / 0x100_0000;
    }

    // The prev and next fields of a list element, which may be an end of the list of descriptor k.
    method GetPrev(k: DescId, node: nat) returns (prev: nat)
      requires |lasts| == 7 && (node == TailPtr(layout, k) || (layout.pool <= node && node - layout.pool + 4 <= mem.Length))
      ensures prev == if node == TailPtr(layout, k) then lasts[k] else Word(mem[..], node - layout.pool)
    {
      if node == TailPtr(layout, k) {
        prev := lasts[k];
      } else {
        prev := ReadWord(node - layout.pool);
      }
    }

    method SetNext(k: DescId, node: nat, v: nat)
      requires |firsts| == 7 && v < 0x1_0000_0000
      requires node == HeadPtr(layout, k) || (layout.pool <= node && node - layout.pool + 8 <= mem.Length)
      modifies this`firsts, mem
      ensures firsts == if node == HeadPtr(layout, k) then old(firsts)[k := v] else old(firsts)
      ensures mem[..] == if node == HeadPtr(layout, k) then old(mem[..]) else SetWord(old(mem[..]), node - layout.pool + 4, v)
    {
      if node == HeadPtr(layout, k) {
        firsts := firsts[k := v];
      } else {
        WriteWord(node - layout.pool + 4, v);
      }
    }

    method SetPrev(k: DescId, node: nat, v: nat)
      requires |lasts| == 7 && v < 0x1_0000_0000
      requires node == TailPtr(layout, k) || (layout.pool <= node && node - layout.pool + 4 <= mem.Length)
      modifies this`lasts, mem
      ensures lasts == if node == TailPtr(layout, k) then old(lasts)[k := v] else old(lasts)
      ensures mem[..] == if node == TailPtr(layout, k) then old(mem[..]) else SetWord(old(mem[..]), node - layout.pool, v)
    {
      if node == TailPtr(layout, k) {
        lasts := lasts[k := v];
      } else {
        WriteWord(node - layout.pool, v);
      }
    }

    /** list_insert: b is linked in before the element at place i of the free list of descriptor k. */
    method ListInsert(k: DescId, ghost i: nat, before: nat, b: nat, ghost u: set<nat>)
      requires Books() && Spread(u, mem.Length) && Lists(free, u)
      requires i <= |free[k]| && before == NodePtr(layout, k, free[k], i) && b in u && forall j: DescId :: b !in free[j]
      modifies this`firsts, this`lasts, this`free, mem
      ensures Books() && Lists(free, u) && free == old(free)[k := InsertAt(old(free[k]), i, b)]
      ensures OnlyLinks(old(mem[..]), mem[..], u)
    {
      hide Encodes, Spread, Lists, Word, SetWord, OnlyLinks, InsertAt;
      ghost var m, q, f, e := mem[..], free[k], firsts, lasts;
      InList(free, u, k);
      InsertEncodes(layout, m, firsts, lasts, arenas, free, k, i, b, u);
      InsertLists(free, u, k, i, b);
      EndsOf(layout, m, firsts, lasts, arenas, free, k, i, u);
      Aligned(u, mem.Length, b);
      var prev := GetPrev(k, before);
      WriteWord(b, prev);
      WriteWord(b + 4, before);
      SetNext(k, prev, Ptr(layout, b));
      SetPrev(k, before, Ptr(layout, b));
      assert mem[..] == Inserted(layout, m, k, q, i, b, u);
      assert firsts == f[k := if i == 0 then Ptr(layout, b) else f[k]];
      assert lasts == e[k := if i == |q| then Ptr(layout, b) else e[k]];
      free := free[k := InsertAt(q, i, b)];
    }

    /** list_remove: the element b at place i of the free list of descriptor k is linked out. */
    method ListRemove(k: DescId, ghost i: nat, b: nat, ghost u: set<nat>)
      requires Books() && Spread(u, mem.Length) && Lists(free, u) && i < |free[k]| && free[k][i] == b
      modifies this`firsts, this`lasts, this`free, mem
      ensures Books() && Lists(free, u) && free == old(free)[k := RemoveAt(old(free[k]), i)]
      ensures OnlyLinks(old(mem[..]), mem[..], u)
    {
      hide Encodes, Spread, Lists, Word, SetWord, OnlyLinks, RemoveAt;
      ghost var m, q, f, e := mem[..], free[k], firsts, lasts;
      InList(free, u, k);
      UnlinkEncodes(layout, m, firsts, lasts, arenas, free, k, i, u);
      RemoveLists(free, u, k, i);
      EndsOf(layout, m, firsts, lasts, arenas, free, k, i, u);
      EndsOf(layout, m, firsts, lasts, arenas, free, k, i + 1, u);
      Aligned(u, mem.Length, b);
      var prev := ReadWord(b);
      var next := ReadWord(b + 4);
      SetNext(k, prev, next);
      SetPrev(k, next, prev);
      assert mem[..] == Unlinked(layout, m, k, q, i, u);
      assert firsts == f[k := if i == 0 then NodePtr(layout, k, q, 1) else f[k]];
      assert lasts == e[k := if i + 1 == |q| then PrevPtr(layout, k, q, i) else e[k]];
      free := free[k := RemoveAt(q, i)];
    }

    // memset.
    method Fill(s: nat, n: nat, v: Byte)
      requires s + n <= mem.Length
      modifies mem
      ensures forall o | 0 <= o < mem.Length :: mem[o] == if s <= o < s + n then v else old(mem[o])
    {
      ghost var before := mem[..];
      for i := 0 to n
        invariant forall o | 0 <= o < mem.Length :: mem[o] == if s <= o < s + i then v else before[o]
      {
        mem[s + i] := v;
      }
    }

    // Writes the header of the arena on page p.
    method WriteHeader(p: nat, a: Arena, ghost u: set<nat>)
      requires Books() && Spread(u, mem.Length) && Lists(free, u) && 4096 * p + 12 <= mem.Length
      requires DescWord(layout, a) < 0x1_0000_0000 && CountWord(a) < 0x1_0000_0000
      modifies this`arenas, mem
      ensures Books() && arenas == old(arenas)[p := a]
      ensures forall o | 0 <= o < mem.Length && !(4096 * p <= o < 4096 * p + 12) :: mem[o] == old(mem[o])
    {
      hide Encodes, Spread, Lists, SetWord;
      ghost var m := mem[..];
      HeaderEncodes(layout, m, firsts, lasts, arenas, free, p, a, u);
      WithHeaderBytes(m, p, DescWord(layout, a), CountWord(a));
      WriteWord(4096 * p, MAGIC);
      WriteWord(4096 * p + 4, DescWord(layout, a));
      WriteWord(4096 * p + 8, CountWord(a));
      assert mem[..] == WithHeader(m, p, DescWord(layout, a), CountWord(a));
      arenas := arenas[p := a];
    }

    // Changes the count in the header of the arena on page p, which has blocks of descriptor k.
    method WriteCount(p: nat, k: DescId, cnt: nat, ghost u: set<nat>)
      requires Books() && Spread(u, mem.Length) && Lists(free, u) && 4096 * p + 12 <= mem.Length
      requires p in arenas && arenas[p].Small? && arenas[p].k == k && cnt < 0x1_0000_0000
      modifies this`arenas, mem
      ensures Books() && arenas == old(arenas)[p := Small(k, cnt)]
      ensures forall o | 0 <= o < mem.Length && !(4096 * p <= o < 4096 * p + 12) :: mem[o] == old(mem[o])
    {
      hide Encodes, Spread, Lists, SetWord, Headed;
      ghost var m := mem[..];
      HeaderOf(layout, m, firsts, lasts, arenas, free, p);
      HeaderEncodes(layout, m, firsts, lasts, arenas, free, p, Small(k, cnt), u);
      WithHeaderBytes(m, p, DescPtr(layout, k), cnt);
      CountSet(layout, m, p, arenas[p], cnt);
      WriteWord(4096 * p + 8, cnt);
      arenas := arenas[p := Small(k, cnt)];
    }

    /** The descriptor pointer and the count in the header of the arena on page p. */
    method ReadHeader(p: nat) returns (desc: nat, cnt: nat)
      requires Books() && p in arenas && 4096 * p + 12 <= mem.Length
      ensures cnt < 0x1_0000_0000
      ensures desc == 0 <==> arenas[p].Big?
      ensures desc == 0 ==> arenas[p] == Big(cnt)
      ensures desc != 0 ==> desc >= layout.descs && (desc - layout.descs) / 48 < 7 && arenas[p] == Small((desc - layout.descs) / 48, cnt)
    {
      hide Encodes, Word;
      HeaderReads(layout, mem[..], firsts, lasts, arenas, free, p);
      var magic := ReadWord(4096 * p);
      assert magic == MAGIC;
      desc := ReadWord(4096 * p + 4);
      cnt := ReadWord(4096 * p + 8);
    }

    /** palloc_get_multiple from the kernel pool. */
    method PallocGet(n: nat) returns (page: Bitmap.Option<nat>)
      modifies pool.bits
      ensures page == Bitmap.None ==> pool.bits[..] == old(pool.bits[..])
      ensures page == Bitmap.None <==> n == 0 || Bitmap.FirstGroup(old(pool.bits[..]), 0, n, false, Bitmap.None)
      ensures page.Some? ==> Bitmap.FirstGroup(old(pool.bits[..]), 0, n, false, page)
      ensures page.Some? ==> Bitmap.AllAre(old(pool.bits[..]), page.value, n, false)
      ensures page.Some? ==> pool.bits[..] == Bitmap.Filled(old(pool.bits[..]), page.value, n, true)
    {
      if n == 0 {
        return Bitmap.None;
      }
      page := pool.ScanAndFlip(n);
    }

    // Lists the blocks of the new arena on page p, one at a time.
    method FillList(p: nat, k: DescId, ghost u: set<nat>)
      requires Books() && Spread(u, mem.Length) && Lists(free, u) && free[k] == []
      requires forall a | a in Blocks(p, k) :: a in u && forall j: DescId :: a !in free[j]
      modifies this`firsts, this`lasts, this`free, mem
      ensures Books() && free == old(free)[k := Blocks(p, k)]
      ensures OnlyLinks(old(mem[..]), mem[..], u)
    {
      hide Spread, Lists, Encodes, InsertAt, Good;
      BlocksDistinct(p, k);
      for i := 0 to BlocksPerArena(k)
        invariant Books() && Lists(free, u) && |free| == 7 && free == old(free)[k := Blocks(p, k)[..i]]
        invariant OnlyLinks(old(mem[..]), mem[..], u)
      {
        hide OnlyLinks;
        ghost var m := mem[..];
        var b := BlockAt(p, k, i);
        assert b == Blocks(p, k)[i];
        assert forall j | 0 <= j < i :: Blocks(p, k)[..i][j] == Blocks(p, k)[j];
        ListInsert(k, |free[k]|, TailPtr(layout, k), b, u);
        OnlyLinksTrans(old(mem[..]), m, mem[..], u);
        InsertAtEnd(Blocks(p, k)[..i], b);
        assert Blocks(p, k)[..i + 1] == Blocks(p, k)[..i] + [b];
      }
      assert Blocks(p, k)[..BlocksPerArena(k)] == Blocks(p, k);
    }

    // Turns page p, just obtained, into an arena of descriptor k whose free list was empty.
    method InitArena(p: nat, k: DescId, ghost h: Heap)
      requires Loose(h, others) && h.free[k] == [] && p < |h.bits| && !h.bits[p] && Books()
      requires H() == h.(bits := h.bits[p := true]) && mem.Length == 4096 * pool.bits.Length
      modifies this`firsts, this`lasts, this`arenas, this`free, mem
      ensures H() == NewArena(h, p, k) && Loose(H(), others) && Books() && p !in h.arenas
      ensures forall o | 0 <= o < mem.Length && InLive(h, o) :: mem[o] == old(mem[o])
    {
      hide Loose, InLive, Encodes, Spread, Lists, OnlyLinks, Listed;
      assert !Owned(h.arenas, p) by { PageUnowned(h, others, p); }
      UnownedQuiet(h, others, p, 1);
      NewArenaKeeps(h, others, p, k);
      ghost var g := NewArena(h, p, k);
      ghost var u := Listed(g.free);
      SpreadOut(g, others);
      NewBlocks(h, others, p, k);
      QuietPage(h, p, u, others, k);
      ghost var m := mem[..];
      WriteHeader(p, Small(k, BlocksPerArena(k)), u);
      HeaderSpares(h, m, mem[..], p);
      ghost var m1 := mem[..];
      FillList(p, k, u);
      LinksSpareLive(h, m1, mem[..], u);
      assert free[k] == [] + Blocks(p, k);
    }

    // What taking the first free block of descriptor k relies on.
    lemma TakeFacts(h: Heap, others: set<nat>, k: DescId, size: nat)
      requires Loose(h, others) && h.free[k] != []
      ensures |h.free| == 7 && Loose(Take(h, k, size), others)
      ensures PageOf(h.free[k][0]) in h.arenas && Quiet(h, 4096 * PageOf(h.free[k][0]), 12)
      ensures h.arenas[PageOf(h.free[k][0])].Small? && h.arenas[PageOf(h.free[k][0])].k == k && h.arenas[PageOf(h.free[k][0])].freeCnt > 0
      ensures 4096 * PageOf(h.free[k][0]) + 12 <= 4096 * |h.bits|
      ensures forall j | 0 <= j < |h.free[k]| :: h.free[k][j] < 4096 * |h.bits|
    {
      TakeKeeps(h, others, k, size);
      HeaderQuiet(h, others, PageOf(h.free[k][0]));
      forall j | 0 <= j < |h.free[k]|
        ensures h.free[k][j] < 4096 * |h.bits|
      {
        LinksQuiet(h, others, k, h.free[k][j]);
      }
    }

    // Takes the first block off the free list of descriptor k.
    method TakeFirst(k: DescId, ghost size: nat) returns (a: nat)
      requires Loose(H(), others) && Books() && |free| == 7 && free[k] != [] && mem.Length == 4096 * pool.bits.Length
      modifies this`firsts, this`lasts, this`arenas, this`free, this`live, mem
      ensures a == old(free[k][0]) && H() == Take(old(H()), k, size) && Loose(H(), others) && Books()
      ensures forall o | 0 <= o < mem.Length && InLive(old(H()), o) :: mem[o] == old(mem[o])
    {
      hide Loose, InLive, Quiet, IsBlock, Encodes, Spread, Lists, Listed, OnlyLinks, RemoveAt, Good;
      ghost var h := H();
      TakeFacts(h, others, k, size);
      SpreadOut(h, others);
      ListedQuiet(h, others);
      ghost var u, m := Listed(free), mem[..];
      EmptyIff(layout, m, firsts, lasts, arenas, free, k);
      a := firsts[k] - layout.pool;
      ListRemove(k, 0, a, u);
      LinksSpareLive(h, m, mem[..], u);
      ghost var m1 := mem[..];
      var p := PageOf(a);
      var desc, cnt := ReadHeader(p);
      WriteCount(p, k, cnt - 1, u);
      HeaderSpares(h, m1, mem[..], p);
      RemoveFirst(h.free[k]);
      live := live[a := size];
      assert H() == Take(h, k, size);
    }

    // No byte of a live block changed.
    twostate predicate Undisturbed()
      reads this, pool, pool.bits, mem
    {
      forall o | 0 <= o < mem.Length && InLive(old(H()), o) :: mem[o] == old(mem[o])
    }

    /**
     malloc. A new block is handed out, or nothing changes; no block handed out before is
     affected. Nothing is handed out for size 0, when no page is left, or when the page
     count wrapped around to 0. The block is the first of its free list, the first of the
     lowest free page, or behind the header on the lowest run of free pages that is enough.
     */
    method Malloc(size: nat) returns (r: Bitmap.Option<nat>)
      requires Valid() && size < 0x1_0000_0000
      modifies this`firsts, this`lasts, this`arenas, this`free, this`live, pool.bits, mem
      ensures Valid()
      ensures r.None? ==> H() == old(H())
      ensures r.None? <==> NoRoom(old(H()), size)
      ensures forall n: nat | 1024 < size < 0xFFFF_EFF5 && LeastPages(size, n) :: r.None? <==> NoRun(old(pool.bits[..]), n)
      ensures r.Some? ==> r.value !in old(live) && live == old(live)[r.value := size]
      ensures r.Some? ==> Capacity(arenas, r.value) == CapacityFor(size) && Chosen(old(H()), size, r.value)
      ensures old(AsAsked()) ==> AsAsked()
      ensures SameCapacities(old(arenas), arenas, old(live).Keys)
      ensures Kept(old(arenas), old(live).Keys, old(mem[..]), mem[..])
    {
      hide Loose, Tight, InLive, LiveBlock, Encodes, Good, LeastPages, NoRun, Chosen;
      ghost var h, m := H(), mem[..];
      forall n: nat | 1024 < size < 0xFFFF_EFF5 && LeastPages(size, n)
        ensures NoRoom(h, size) <==> NoRun(h.bits, n)
      {
        NoRoomIsNoRun(h, size, n);
      }
      if size == 0 {
        r := Bitmap.None;
      } else {
        var d := FindDesc(size);
        if d == |descs| {
          r := MallocBig(size);
        } else {
          r := MallocSmall(size, d);
        }
      }
      assert Spared(h, m, mem[..]);
      hide Spared;
      SparedBlocks(h, others, m, mem[..]);
    }

    // The loop over the descriptors.
    method FindDesc(size: nat) returns (d: nat)
      requires |descs| == 7 && (forall k: DescId :: descs[k] == Desc(BlockSize(k), BlocksPerArena(k)))
      ensures d == DescFor(size)
    {
      d := 0;
      while d < |descs|
        invariant d <= |descs| == 7
        invariant forall j: DescId | j < d :: BlockSize(j) < size
      {
        if descs[d].blockSize >= size {
          break;
        }
        d := d + 1;
      }
    }

    // Makes sure the free list of descriptor k is not empty, if a page can be had.
    method Replenish(k: DescId) returns (ok: bool)
      requires Valid()
      modifies this`firsts, this`lasts, this`arenas, this`free, pool.bits, mem
      ensures !ok ==> H() == old(H()) && Books()
      ensures !ok <==> old(free)[k] == [] && NoPages(old(H()), 1)
      ensures ok ==> |free| == 7 && free[k] != [] && Loose(H(), others) && AlmostTight(H(), k) && SameBlocks(old(H()), H()) && Books()
      ensures ok ==> FirstOf(old(H()), k, free[k][0])
      ensures Undisturbed()
    {
      ghost var h := H();
      hide Loose, InLive, Encodes, Good, AlmostTight, SameBlocks;
      FreeInPool(h, others, k);
      EmptyIff(layout, mem[..], firsts, lasts, arenas, free, k);
      if firsts[k] == TailPtr(layout, k) {
        var page := PallocGet(1);
        if page.None? {
          return false;
        }
        assert !h.bits[page.value];
        assert pool.bits[..] == h.bits[page.value := true];
        ArenaMade(h, others, page.value, k);
        InitArena(page.value, k, h);
        FirstOfNew(h, page.value, k);
      } else {
        SameHeap(h, others, k);
      }
      return true;
    }

    method MallocSmall(size: nat, k: DescId) returns (r: Bitmap.Option<nat>)
      requires Valid() && 0 < size <= BlockSize(k)
      modifies this`firsts, this`lasts, this`arenas, this`free, this`live, pool.bits, mem
      ensures Valid()
      ensures r.None? ==> H() == old(H())
      ensures r.None? <==> old(free)[k] == [] && NoPages(old(H()), 1)
      ensures r.Some? ==> r.value !in old(live) && live == old(live)[r.value := size] && Capacity(arenas, r.value) == BlockSize(k)
      ensures r.Some? && k == DescFor(size) ==> Chosen(old(H()), size, r.value)
      ensures forall b | b in old(live) :: Capacity(arenas, b) == Capacity(old(arenas), b)
      ensures Undisturbed()
    {
      hide Loose, InLive, Tight, BlockSize, BlocksPerArena, Encodes, Good, FirstOf, Chosen;
      ghost var h := H();
      var ok := Replenish(k);
      if !ok {
        return Bitmap.None;
      }
      BlockTaken(H(), others, k, size);
      var a := TakeFirst(k, size);
      FirstIsChosen(h, size, k, a);
      return Bitmap.Some(a);
    }

    method MallocBig(size: nat) returns (r: Bitmap.Option<nat>)
      requires Valid() && 1024 < size < 0x1_0000_0000
      modifies this`arenas, this`live, pool.bits, mem
      ensures Valid()
      ensures r.None? ==> H() == old(H())
      ensures r.None? <==> BigPages(size) == 0 || NoPages(old(H()), BigPages(size))
      ensures r.Some? ==> r.value !in old(live) && live == old(live)[r.value := size] && Capacity(arenas, r.value) == 4096 * BigPages(size) - 12
      ensures r.Some? ==> BigPages(size) >= 1 && Chosen(old(H()), size, r.value)
      ensures forall b | b in old(live) :: Capacity(arenas, b) == Capacity(old(arenas), b)
      ensures Undisturbed()
    {
      hide Loose, Tight, InLive, LiveBlock, Encodes, Good, Spread, Lists, Listed, Chosen;
      ghost var h, m := H(), mem[..];
      var pages := BigPages(size);
      var page := PallocGet(pages);
      if page.None? {
        return Bitmap.None;
      }
      var p := page.value;
      BigIsChosen(h, size, p);
      BigKeeps(h, others, p, pages, size);
      QuietStart(h, 4096 * p, 4096 * pages, 12);
      SpreadOut(h, others);
      WriteHeader(p, Big(pages), Listed(h.free));
      HeaderSpares(h, m, mem[..], p);
      live := live[BigBlock(p) := size];
      assert H() == NewBig(h, p, pages, size);
      return Bitmap.Some(BigBlock(p));
    }

    lemma QuietStart(h: Heap, s: nat, n: nat, m: nat)
      requires Quiet(h, s, n) && m <= n
      ensures Quiet(h, s, m)
    {
    }

    /** palloc_free_multiple: fills the pages, checks that they are marked, and clears the marks. */
    method PallocFree(p: nat, n: nat, ghost h: Heap)
      requires mem.Length == 4096 * pool.bits.Length && n >= 1 && Books()
      requires Bitmap.AllAre(pool.bits[..], p, n, true) && Quiet(h, 4096 * p, 4096 * n)
      requires forall o | 4096 * p <= o < 4096 * (p + n) :: !Control(arenas, free, o)
      modifies pool.bits, mem
      ensures Books() && pool.bits[..] == Bitmap.Filled(old(pool.bits[..]), p, n, false)
      ensures forall o | 0 <= o < mem.Length && InLive(h, o) :: mem[o] == old(mem[o])
    {
      hide Control, Encodes, Good;
      ghost var m := mem[..];
      Fill(4096 * p, 4096 * n, 0xcc);
      ControlKept(layout, m, mem[..], firsts, lasts, arenas, free);
      pool.SetMultiple(p, n, false);
    }

    // Removes every block of arena p from the list.
    method UnlinkAll(p: nat, k: DescId, ghost u: set<nat>)
      requires Books() && Spread(u, mem.Length) && Lists(free, u) && forall a | a in Blocks(p, k) :: a in free[k]
      modifies this`firsts, this`lasts, this`free, mem
      ensures Books() && free == old(free)[k := WithoutAll(old(free)[k], Members(Blocks(p, k)))]
      ensures OnlyLinks(old(mem[..]), mem[..], u)
    {
      hide Spread, Lists, Encodes, Good, RemoveAt, OnlyLinks, WithoutAll, Members, Distinct, Blocks, BlockAt, IndexOf;
      ghost var q := free[k];
      InList(free, u, k);
      NoneRemoved(q, p, k);
      OnlyLinksSame(mem[..], u);
      for i := 0 to BlocksPerArena(k)
        invariant Books() && Lists(free, u)
        invariant |free| == 7 && free == old(free)[k := WithoutAll(q, FirstBlocks(p, k, i))]
        invariant OnlyLinks(old(mem[..]), mem[..], u)
      {
        ghost var m := mem[..];
        ghost var place := UnlinkRound(free, q, p, k, i);
        ListRemove(k, place, BlockAt(p, k, i), u);
        OnlyLinksTrans(old(mem[..]), m, mem[..], u);
      }
      AllBlocks(p, k);
    }

    // Takes the blocks of arena p, all of them free, off the list and gives the page back.
    method DropArena(p: nat, k: DescId)
      requires Loose(H(), others) && Books() && |free| == 7 && p in arenas && arenas[p] == Small(k, BlocksPerArena(k))
      requires mem.Length == 4096 * pool.bits.Length
      modifies this`firsts, this`lasts, this`arenas, this`free, pool.bits, mem
      ensures p < |old(H()).bits| && H() == Drop(old(H()), p, k) && Loose(H(), others) && Books()
      ensures forall o | 0 <= o < mem.Length && InLive(old(H()), o) :: mem[o] == old(mem[o])
    {
      hide Loose, InLive, Quiet, Encodes, Good, Spread, Lists, Listed, OnlyLinks, Control;
      ghost var h, m := H(), mem[..];
      DropFacts(h, others, p, k);
      SpreadOut(h, others);
      ListedQuiet(h, others);
      UnlinkAll(p, k, Listed(h.free));
      LinksSpareLive(h, m, mem[..], Listed(h.free));
      arenas := arenas - {p};
      DropNoControl(h, others, p, k);
      FewerHeaders(layout, mem[..], firsts, lasts, h.arenas, free, p);
      PallocFree(p, 1, h);
      assert H().bits == h.bits[p := false];
    }

    /** free. The block is no longer live; no other live block is affected. */
    method Free(block: Bitmap.Option<nat>)
      requires Valid() && (block.Some? ==> block.value in live)
      modifies this`firsts, this`lasts, this`arenas, this`free, this`live, pool.bits, mem
      ensures Valid()
      ensures live == if block.Some? then old(live) - {block.value} else old(live)
      ensures block.None? ==> H() == old(H())
      ensures block.Some? ==> PutFirst(arenas, free, block.value)
      ensures old(AsAsked()) ==> AsAsked()
      ensures SameCapacities(old(arenas), arenas, live.Keys)
      ensures Kept(arenas, live.Keys, old(mem[..]), mem[..])
    {
      hide Loose, Tight, InLive, LiveBlock, Encodes, Good, PutFirst;
      ghost var m := mem[..];
      if block.Some? {
        var a := block.value;
        var p := PageOf(a);
        LiveArena(H(), others, a);
        LiveBounds(H(), others, a);
        var desc, cnt := ReadHeader(p);
        if desc != 0 {
          var k: DescId := (desc - layout.descs) / 48;
          FreeSmall(a, k);
        } else {
          FreeBig(p, cnt);
        }
      }
      assert Spared(H(), m, mem[..]);
      hide Spared;
      SparedBlocks(H(), others, m, mem[..]);
    }

    // Puts block a back at the front of the free list of descriptor k.
    method PutBack(a: nat, k: DescId)
      requires Valid() && a in live && PageOf(a) in arenas && arenas[PageOf(a)].Small? && arenas[PageOf(a)].k == k
      modifies this`firsts, this`lasts, this`arenas, this`free, this`live, mem
      ensures H() == Put(old(H()), a, k) && Books()
      ensures forall o | 0 <= o < mem.Length && InLive(H(), o) :: mem[o] == old(mem[o])
    {
      hide Loose, Tight, InLive, Quiet, BlocksPerArena, BlockSize, PageOf, Encodes, Good, Spread, Lists, Listed, OnlyLinks, Control, InsertAt;
      ghost var h, m := H(), mem[..];
      var p := PageOf(a);
      ReturnQuiet(h, others, a, k);
      ghost var h1 := Put(h, a, k);
      ReturnFacts(h, others, a, k);
      ghost var u := Listed(h1.free);
      Fill(a, descs[k].blockSize, 0xcc);
      ControlKept(layout, m, mem[..], firsts, lasts, arenas, free);
      FillSpares(h1, m, mem[..], a, BlockSize(k));
      ghost var m1 := mem[..];
      FirstNode(layout, m1, firsts, lasts, arenas, free, k);
      ListInsert(k, 0, firsts[k], a, u);
      LinksSpareLive(h1, m1, mem[..], u);
      InsertAtFront(h.free[k], a);
      var desc, cnt := ReadHeader(p);
      ghost var m2 := mem[..];
      WriteCount(p, k, cnt + 1, u);
      HeaderSpares(h1, m2, mem[..], p);
      live := live - {a};
      assert H() == h1;
    }

    method FreeSmall(a: nat, k: DescId)
      requires Valid() && a in live && PageOf(a) in arenas && arenas[PageOf(a)].Small? && arenas[PageOf(a)].k == k
      modifies this`firsts, this`lasts, this`arenas, this`free, this`live, pool.bits, mem
      ensures Valid() && live == old(live) - {a} && PutFirst(arenas, free, a)
      ensures forall b | b in live :: Capacity(arenas, b) == Capacity(old(arenas), b)
      ensures forall o | 0 <= o < mem.Length && InLive(H(), o) :: mem[o] == old(mem[o])
    {
      hide Loose, Tight, InLive, Quiet, LiveBlock, BlocksPerArena, BlockSize, Encodes, Good;
      ghost var h := H();
      var p := PageOf(a);
      BlockReturned(h, others, a, k);
      HeaderInPool(h, others, p);
      PutBack(a, k);
      ghost var h1 := H();
      var desc, cnt := ReadHeader(p);
      if cnt >= descs[k].blocksPerArena {
        assert cnt == descs[k].blocksPerArena;
        DropArena(p, k);
        ArenaDropped(h1, others, p, k);
      }
    }

    method FreeBig(p: nat, pages: nat)
      requires Valid() && p in arenas && arenas[p] == Big(pages)
      modifies this`arenas, this`live, pool.bits, mem
      ensures Valid() && live == old(live) - {BigBlock(p)} && PutFirst(arenas, free, BigBlock(p))
      ensures forall b | b in live :: Capacity(arenas, b) == Capacity(old(arenas), b)
      ensures forall o | 0 <= o < mem.Length && InLive(H(), o) :: mem[o] == old(mem[o])
    {
      hide Loose, InLive, Quiet, LiveBlock, Encodes, Good, Control;
      ghost var h := H();
      BigReturned(h, others, p);
      ghost var h1 := DropBig(h, p, pages);
      BigNoControl(h, others, p);
      FewerHeaders(layout, mem[..], firsts, lasts, arenas, free, p);
      arenas := arenas - {p};
      PallocFree(p, pages, h1);
      live := live - {BigBlock(p)};
      assert H() == h1;
    }

    // block_size.
    method BlockSizeOf(a: nat) returns (n: nat)
      requires Valid() && a in live
      ensures n == Capacity(arenas, a)
    {
      hide Loose, Tight, Encodes, Good, BlockSize, BlocksPerArena;
      LiveArena(H(), others, a);
      LiveInside(H(), others, a);
      var desc, cnt := ReadHeader(PageOf(a));
      n := if desc != 0 then descs[(desc - layout.descs) / 48].blockSize else 4096 * cnt - a % 4096;
    }

    /** A caller writes to a block it was given: the books are not touched. */
    method ClientWrite(a: nat, i: nat, v: Byte)
      requires Valid() && a in live && i < Capacity(arenas, a)
      modifies mem
      ensures Valid() && H() == old(H()) && a + i < mem.Length && mem[..] == old(mem[..])[a + i := v]
    {
      hide Loose, Tight, Capacity, Encodes, Good, Control;
      LiveBounds(H(), others, a);
      LiveNoControl(H(), others, a);
      ghost var m := mem[..];
      mem[a + i] := v;
      ControlKept(layout, m, mem[..], firsts, lasts, arenas, free);
    }

    /**
     realloc. The new block starts with the bytes of the old one, as many as both
     hold; when no memory is available the old block is left as it is.
     */
    method Realloc(block: Bitmap.Option<nat>, newSize: nat) returns (r: Bitmap.Option<nat>)
      requires Valid() && newSize < 0x1_0000_0000
      requires block.Some? ==> block.value in live && (newSize < 0xFFFF_FFF5 || Capacity(arenas, block.value) <= 4084)
      modifies this`firsts, this`lasts, this`arenas, this`free, this`live, pool.bits, mem
      ensures Valid()
      ensures newSize == 0 ==> r.None? && live == if block.Some? then old(live) - {block.value} else old(live)
      ensures newSize > 0 && r.None? ==> H() == old(H())
      ensures newSize > 0 ==> (r.None? <==> NoRoom(old(H()), newSize))
      ensures newSize > 0 && r.Some? ==> r.value !in old(live) && Capacity(arenas, r.value) == CapacityFor(newSize)
      ensures newSize > 0 && r.Some? ==> live == (if block.Some? then old(live) - {block.value} else old(live))[r.value := newSize]
      ensures newSize > 0 && r.Some? && block.Some? ==> Copied(old(mem[..]), mem[..], block.value, r.value, Min(newSize, Capacity(old(arenas), block.value)))
      ensures newSize > 0 && r.Some? && block.Some? ==> Preserved(old(mem[..]), mem[..], block.value, r.value, newSize, Capacity(old(arenas), block.value))
      ensures old(AsAsked()) ==> AsAsked()
      ensures SameCapacities(old(arenas), arenas, live.Keys * old(live).Keys)
      ensures Kept(arenas, live.Keys * old(live).Keys, old(mem[..]), mem[..])
    {
      hide Loose, Tight, NoRoom, CapacityFor, Capacity, SameBytes, Copied, Preserved, Encodes, Good;
      ghost var capacity := if block.Some? then Capacity(arenas, block.value) else 0;
      if newSize == 0 {
        Free(block);
        return Bitmap.None;
      }
      ghost var m := mem[..];
      r := Malloc(newSize);
      if block.Some? && r.Some? {
        CopyFits(Capacity(arenas, block.value), newSize);
        MoveBlock(block.value, r.value, newSize, m);
        CopiedMeaning(m, mem[..], block.value, r.value, newSize, capacity);
      }
    }

    // Copies the contents of block a to the new block r and frees a; m holds the bytes of the older blocks.
    method MoveBlock(a: nat, r: nat, newSize: nat, ghost m: seq<Byte>)
      requires Valid() && a in live && r in live && a != r && Min(newSize, Capacity(arenas, a)) <= Capacity(arenas, r)
      requires Kept(arenas, live.Keys - {r}, m, mem[..])
      modifies this`firsts, this`lasts, this`arenas, this`free, this`live, pool.bits, mem
      ensures Valid() && live == old(live) - {a}
      ensures old(AsAsked()) ==> AsAsked()
      ensures SameCapacities(old(arenas), arenas, live.Keys)
      ensures Copied(m, mem[..], a, r, Min(newSize, Capacity(old(arenas), a)))
      ensures Kept(arenas, live.Keys - {r}, m, mem[..])
    {
      hide Loose, Tight, Capacity, Copied, SameBytes, Kept, SameCapacities, Encodes, Good, Control;
      ghost var h, m0 := H(), mem[..];
      var oldSize := BlockSizeOf(a);
      var n := if newSize < oldSize then newSize else oldSize;
      LiveBounds(h, others, a);
      LiveBounds(h, others, r);
      LiveApart(h, others, a, r);
      Memcpy(r, a, n);
      LiveNoControl(h, others, r);
      OverlaidElsewhere(m0, r, a, n);
      ControlKept(layout, m0, mem[..], firsts, lasts, arenas, free);
      ghost var m1 := mem[..];
      CopyResult(h, others, m, m0, m1, a, r, n);
      Free(Bitmap.Some(a));
      assert live.Keys + {a} - {r} == h.live.Keys - {r};
      FreeResult(h.arenas, H(), m, m1, mem[..], a, r, n);
    }

    // memcpy between two regions that do not overlap.
    method Memcpy(dst: nat, src: nat, n: nat)
      requires dst + n <= mem.Length && src + n <= mem.Length && (dst + n <= src || src + n <= dst)
      modifies mem
      ensures mem[..] == Overlaid(old(mem[..]), dst, src, n)
    {
      ghost var m0 := mem[..];
      for i := 0 to n
        invariant mem[..] == Overlaid(m0, dst, src, i)
      {
        OverlayNext(m0, mem[..], dst, src, i);
        mem[dst + i] := mem[src + i];
      }
    }
  }

  /** While its arena exists a freed block is the first that malloc takes for its size. */
  ghost predicate PutFirst(arenas: map<nat, Arena>, free: seq<seq<nat>>, a: nat) {
    PageOf(a) in arenas ==> arenas[PageOf(a)].Small? && |free| == 7 && a in free[arenas[PageOf(a)].k] && free[arenas[PageOf(a)].k][0] == a
  }

  lemma NothingYet(h: Heap)
    requires h.arenas == map[] && h.live == map[] && |h.free| == 7 && (forall k: DescId :: h.free[k] == []) && forall i | 0 <= i < |h.bits| :: !h.bits[i]
    ensures Loose(h, {})
  {
  }

  lemma HeaderOf(l: Layout, m: seq<Byte>, firsts: seq<nat>, lasts: seq<nat>, arenas: map<nat, Arena>, free: seq<seq<nat>>, p: nat)
    requires Encodes(l, m, firsts, lasts, arenas, free) && p in arenas
    ensures Headed(l, m, p, arenas[p])
  {
    hide Linked, Headed;
  }

  lemma FirstNode(l: Layout, m: seq<Byte>, firsts: seq<nat>, lasts: seq<nat>, arenas: map<nat, Arena>, free: seq<seq<nat>>, k: DescId)
    requires Encodes(l, m, firsts, lasts, arenas, free)
    ensures firsts[k] == NodePtr(l, k, free[k], 0)
  {
    hide Word, Headed;
    assert Linked(l, m, k, free[k], firsts[k], lasts[k]);
  }

  // The end pointers around place i of a free list are words.
  lemma EndsOf(l: Layout, m: seq<Byte>, firsts: seq<nat>, lasts: seq<nat>, arenas: map<nat, Arena>, free: seq<seq<nat>>, k: DescId, i: nat, u: set<nat>)
    requires Good(l, |m|) && Spread(u, |m|) && Lists(free, u) && Encodes(l, m, firsts, lasts, arenas, free) && i <= |free[k]|
    ensures |firsts| == |lasts| == 7
    ensures var q, node, prev := free[k], NodePtr(l, k, free[k], i), PrevPtr(l, k, free[k], i);
      && node < 0x1_0000_0000 && prev < 0x1_0000_0000
      && (node == TailPtr(l, k) <==> i == |q|) && (i < |q| ==> node == Ptr(l, q[i]) && q[i] + 16 <= |m|)
      && (prev == HeadPtr(l, k) <==> i == 0) && (i > 0 ==> prev == Ptr(l, q[i - 1]) && q[i - 1] + 16 <= |m|)
      && (if i == |q| then lasts[k] else Word(m, q[i])) == prev
      && (if i == 0 then firsts[k] else Word(m, q[i - 1] + 4)) == node
    ensures forall b | b in u :: Ptr(l, b) < 0x1_0000_0000
  {
    hide Word, Headed;
    assert Linked(l, m, k, free[k], firsts[k], lasts[k]);
    InList(free, u, k);
    if i < |free[k]| { LinkedAt(l, m, k, free[k], firsts[k], lasts[k], i); }
    if i > 0 { LinkedAt(l, m, k, free[k], firsts[k], lasts[k], i - 1); }
    hide Lists, Encodes;
  }

  lemma InsertAtEnd(q: seq<nat>, b: nat)
    ensures InsertAt(q, |q|, b) == q + [b]
  {
  }

  lemma InsertAtFront(q: seq<nat>, b: nat)
    ensures InsertAt(q, 0, b) == [b] + q
  {
  }

  lemma RemoveFirst(q: seq<nat>)
    requires q != []
    ensures RemoveAt(q, 0) == q[1..]
  {
  }

  lemma {:induction false} RemoveOneAt(q: seq<nat>, b: nat)
    requires b in q
    ensures RemoveAt(q, IndexOf(q, b)) == RemoveOne(q, b)
  {
    if q[0] != b {
      RemoveOneAt(q[1..], b);
      var i := IndexOf(q[1..], b);
      assert RemoveAt(q, i + 1) == [q[0]] + RemoveAt(q[1..], i);
    } else {
      assert RemoveAt(q, 0) == q[1..];
    }
  }

  lemma PageUnowned(h: Heap, others: set<nat>, p: nat)
    requires Loose(h, others) && p < |h.bits| && !h.bits[p]
    ensures !Owned(h.arenas, p)
  {
  }

  // The blocks of a new arena are listed afterwards and were not before.
  lemma NewBlocks(h: Heap, others: set<nat>, p: nat, k: DescId)
    requires Loose(h, others) && p !in h.arenas && h.free[k] == [] && p < |h.bits|
    ensures Lists(h.free, Listed(NewArena(h, p, k).free))
    ensures forall a | a in Blocks(p, k) :: a in Listed(NewArena(h, p, k).free) && forall j: DescId :: a !in h.free[j]
  {
    hide IsBlock, Blocks;
    var g := NewArena(h, p, k);
    assert g.free[k] == [] + Blocks(p, k) == Blocks(p, k);
    forall j: DescId, i | 0 <= i < |h.free[j]|
      ensures h.free[j][i] in Listed(g.free) && FreeBlock(h, j, h.free[j][i])
    {
      assert g.free[j] == h.free[j];
    }
    forall a | a in Blocks(p, k)
      ensures a in Listed(g.free) && forall j: DescId :: a !in h.free[j]
    {
      var i :| 0 <= i < |Blocks(p, k)| && Blocks(p, k)[i] == a;
      assert g.free[k][i] == a;
      BlocksOnPage(p, k, i);
    }
  }

  lemma BlocksOnPage(p: nat, k: DescId, i: nat)
    requires i < BlocksPerArena(k)
    ensures PageOf(Blocks(p, k)[i]) == p
  {
    BlockInside(p, k, i);
  }

  // Nothing of a page that was free, and no link, is part of a live block.
  lemma QuietPage(h: Heap, p: nat, u: set<nat>, others: set<nat>, k: DescId)
    requires Loose(h, others) && Quiet(h, 4096 * p, 4096) && p < |h.bits| && !h.bits[p] && h.free[k] == [] && u == Listed(NewArena(h, p, k).free)
    ensures Quiet(h, 4096 * p, 12) && 4096 * p + 12 <= 4096 * |h.bits| && forall x | x in u :: Quiet(h, x, 8)
  {
    assert |h.free| == 7;
    hide Loose;
    ListedQuiet(h, others);
    var g := NewArena(h, p, k);
    assert g.free[k] == [] + Blocks(p, k) == Blocks(p, k);
    forall x | x in u
      ensures Quiet(h, x, 8)
    {
      var j: nat, i :| j < 7 && 0 <= i < |g.free[j]| && g.free[j][i] == x;
      if j == k {
        BlockInside(p, k, i);
        assert x == BlockAt(p, k, i);
      } else {
        assert x in Listed(h.free);
      }
    }
  }

  // Writing a header, or any quiet range, spares live blocks.
  lemma HeaderSpares(h: Heap, m: seq<Byte>, m': seq<Byte>, p: nat)
    requires Quiet(h, 4096 * p, 12) && |m'| == |m| && forall o | 0 <= o < |m| && !(4096 * p <= o < 4096 * p + 12) :: m'[o] == m[o]
    ensures forall o: nat | o < |m| && InLive(h, o) :: m'[o] == m[o]
  {
  }

  lemma FillSpares(h: Heap, m: seq<Byte>, m': seq<Byte>, s: nat, n: nat)
    requires Quiet(h, s, n) && |m'| == |m| && forall o | 0 <= o < |m| && !(s <= o < s + n) :: m'[o] == m[o]
    ensures forall o: nat | o < |m| && InLive(h, o) :: m'[o] == m[o]
  {
  }

  lemma FreeInPool(h: Heap, others: set<nat>, k: DescId)
    requires Loose(h, others)
    ensures |h.free| == 7 && forall j | 0 <= j < |h.free[k]| :: h.free[k][j] < 4096 * |h.bits|
  {
    assert |h.free| == 7;
    hide Loose;
    forall j | 0 <= j < |h.free[k]|
      ensures h.free[k][j] < 4096 * |h.bits|
    {
      LinksQuiet(h, others, k, h.free[k][j]);
    }
  }

  lemma SameHeap(h: Heap, others: set<nat>, k: DescId)
    requires Inv(h, others)
    ensures SameBlocks(h, h) && |h.free| == 7 && (h.free[k] != [] ==> AlmostTight(h, k))
  {
  }

  lemma HeaderInPool(h: Heap, others: set<nat>, p: nat)
    requires Loose(h, others) && p in h.arenas
    ensures 4096 * p + 12 <= 4096 * |h.bits|
  {
    HeaderQuiet(h, others, p);
  }

  // What putting block a back relies on.
  lemma ReturnFacts(h: Heap, others: set<nat>, a: nat, k: DescId)
    requires Inv(h, others) && a in h.live && PageOf(a) in h.arenas && h.arenas[PageOf(a)].Small? && h.arenas[PageOf(a)].k == k
    ensures |h.free| == 7
    ensures var h1 := Put(h, a, k); var u := Listed(h1.free);
      && Spread(u, 4096 * |h.bits|) && Lists(h.free, u) && a in u && (forall j: DescId :: a !in h.free[j]) && (forall x | x in u :: Quiet(h1, x, 8))
    ensures forall o | a <= o < a + BlockSize(k) :: !Control(h.arenas, h.free, o)
    ensures h.arenas[PageOf(a)].freeCnt < 255
  {
    var h1 := Put(h, a, k);
    PutKeeps(h, others, a, k);
    SpreadOut(h1, others);
    ListedQuiet(h1, others);
    LiveNoControl(h, others, a);
    AllFree(h, others, PageOf(a));
    assert |h.free| == 7;
    hide Loose, Tight, Spread, Quiet, Control;
    assert h1.free[k] == [a] + h.free[k];
    assert h1.free[k][0] == a;
    FewerListed(h, h1, a, k);
  }

  lemma FewerListed(h: Heap, h1: Heap, a: nat, k: DescId)
    requires |h.free| == |h1.free| == 7 && h1.free == h.free[k := [a] + h.free[k]] && Lists(h1.free, Listed(h1.free))
    ensures Lists(h.free, Listed(h1.free)) && a in Listed(h1.free) && forall j: DescId :: a !in h.free[j]
  {
    var u := Listed(h1.free);
    assert h1.free[k][0] == a;
    forall j: DescId, i | 0 <= i < |h.free[j]|
      ensures h.free[j][i] in u && h.free[j][i] != a
    {
      assert h.free[j][i] == h1.free[j][if j == k then i + 1 else i];
    }
    forall j: DescId
      ensures Distinct(h.free[j])
    {
      assert Distinct(h1.free[j]);
      assert j == k ==> forall i | 0 <= i < |h.free[k]| :: h.free[k][i] == h1.free[k][i + 1];
    }
    forall j: DescId, j': DescId, i, i' | j != j' && 0 <= i < |h.free[j]| && 0 <= i' < |h.free[j']|
      ensures h.free[j][i] != h.free[j'][i']
    {
      assert h.free[j][i] == h1.free[j][if j == k then i + 1 else i];
      assert h.free[j'][i'] == h1.free[j'][if j' == k then i' + 1 else i'];
    }
  }

  // A header may be forgotten.
  lemma FewerHeaders(l: Layout, m: seq<Byte>, firsts: seq<nat>, lasts: seq<nat>, arenas: map<nat, Arena>, free: seq<seq<nat>>, p: nat)
    requires Encodes(l, m, firsts, lasts, arenas, free)
    ensures Encodes(l, m, firsts, lasts, arenas - {p}, free)
  {
    hide Linked, Headed;
  }

  lemma DropNoControl(h: Heap, others: set<nat>, p: nat, k: DescId)
    requires Loose(h, others) && p in h.arenas && h.arenas[p] == Small(k, BlocksPerArena(k))
    ensures p < |h.bits| && |h.free| == 7
    ensures var d := Drop(h, p, k); |d.free| == 7 && forall o | 4096 * p <= o < 4096 * (p + 1) :: !Control(d.arenas, d.free, o)
  {
    DropKeeps(h, others, p, k);
    var d := Drop(h, p, k);
    OwnedRemove(h, p);
    assert !Owned(d.arenas, p);
    UnownedNoControl(d, others, p, 1);
  }

  lemma BigNoControl(h: Heap, others: set<nat>, p: nat)
    requires Inv(h, others) && p in h.arenas && h.arenas[p].Big?
    ensures |h.free| == 7
    ensures forall o | 4096 * p <= o < 4096 * (p + h.arenas[p].pages) :: !Control(h.arenas - {p}, h.free, o)
  {
    var n := h.arenas[p].pages;
    DropBigKeeps(h, others, p);
    var h1 := DropBig(h, p, n);
    OwnedRemove(h, p);
    UnownedNoControl(h1, others, p, n);
  }

  lemma OverlaidElsewhere(m: seq<Byte>, dst: nat, src: nat, n: nat)
    requires dst + n <= |m| && src + n <= |m|
    ensures |Overlaid(m, dst, src, n)| == |m| && forall o | 0 <= o < |m| && !(dst <= o < dst + n) :: Overlaid(m, dst, src, n)[o] == m[o]
  {
  }

  function Overlaid(m: seq<Byte>, dst: nat, src: nat, n: nat): seq<Byte>
    requires dst + n <= |m| && src + n <= |m|
  {
    m[..dst] + m[src..src + n] + m[dst + n..]
  }

  lemma OverlayNext(m: seq<Byte>, c: seq<Byte>, dst: nat, src: nat, i: nat)
    requires dst + i < |m| && src + i < |m| && (dst + i < src || src + i < dst)
    requires c == Overlaid(m, dst, src, i)
    ensures c[dst + i := c[src + i]] == Overlaid(m, dst, src, i + 1)
  {
  }

  predicate SameBytes(m: seq<Byte>, m': seq<Byte>, s: nat, n: nat) {
    s + n <= |m| == |m'| && m[s..s + n] == m'[s..s + n]
  }

  // The first n bytes at r are those that were at a.
  predicate Copied(m: seq<Byte>, m': seq<Byte>, a: nat, r: nat, n: nat) {
    a + n <= |m| && r + n <= |m'| && m'[r..r + n] == m[a..a + n]
  }

  /** Every byte inside both sizes is at its place in the new block. */
  ghost predicate Preserved(m: seq<Byte>, m': seq<Byte>, a: nat, r: nat, newSize: nat, oldSize: nat) {
    forall o | a <= o < a + newSize && o < a + oldSize :: o < |m| && r + o - a < |m'| && m[o] == m'[r + o - a]
  }

  lemma CopiedMeaning(m: seq<Byte>, m': seq<Byte>, a: nat, r: nat, newSize: nat, oldSize: nat)
    requires Copied(m, m', a, r, Min(newSize, oldSize))
    ensures Preserved(m, m', a, r, newSize, oldSize)
  {
    var n := Min(newSize, oldSize);
    forall o | a <= o < a + newSize && o < a + oldSize
      ensures o < |m| && r + o - a < |m'| && m[o] == m'[r + o - a]
    {
      assert m'[r..r + n][o - a] == m[a..a + n][o - a];
    }
  }

  // No byte of a live block changed.
  ghost predicate Spared(h: Heap, m: seq<Byte>, m': seq<Byte>) {
    |m| == |m'| && forall o: nat | o < |m| && InLive(h, o) :: m'[o] == m[o]
  }

  lemma SparedBlocks(h: Heap, others: set<nat>, m: seq<Byte>, m': seq<Byte>)
    requires Loose(h, others) && |m| == 4096 * |h.bits| && Spared(h, m, m')
    ensures Kept(h.arenas, h.live.Keys, m, m')
  {
    hide Loose, Capacity;
    forall b | b in h.live.Keys
      ensures SameBytes(m, m', b, Capacity(h.arenas, b))
    {
      LiveBounds(h, others, b);
      forall o | b <= o < b + Capacity(h.arenas, b)
        ensures m'[o] == m[o]
      {
        assert InLive(h, o);
      }
    }
  }

  // The bytes of the blocks bs are the same in m and m'.
  ghost predicate Kept(arenas: map<nat, Arena>, bs: set<nat>, m: seq<Byte>, m': seq<Byte>) {
    forall b | b in bs :: SameBytes(m, m', b, Capacity(arenas, b))
  }

  ghost predicate Sized(arenas: map<nat, Arena>, live: map<nat, nat>) {
    forall b | b in live :: Capacity(arenas, b) == CapacityFor(live[b])
  }

  ghost predicate SameCapacities(arenas: map<nat, Arena>, arenas': map<nat, Arena>, bs: set<nat>) {
    forall b | b in bs :: Capacity(arenas', b) == Capacity(arenas, b)
  }

  lemma LiveBounds(h: Heap, others: set<nat>, a: nat)
    requires Loose(h, others) && a in h.live
    ensures a + Capacity(h.arenas, a) <= 4096 * |h.bits|
  {
    LiveInside(h, others, a);
  }

  lemma LiveArena(h: Heap, others: set<nat>, a: nat)
    requires Loose(h, others) && a in h.live
    ensures PageOf(a) in h.arenas && (h.arenas[PageOf(a)].Big? ==> a == BigBlock(PageOf(a)))
  {
    assert LiveBlock(h.arenas, a);
  }

  // After a copy from a to r.
  lemma CopyResult(h: Heap, others: set<nat>, m: seq<Byte>, m0: seq<Byte>, m1: seq<Byte>, a: nat, r: nat, n: nat)
    requires Loose(h, others) && |m0| == 4096 * |h.bits|
    requires a in h.live && r in h.live && a != r && n <= Capacity(h.arenas, r) && n <= Capacity(h.arenas, a)
    requires Kept(h.arenas, h.live.Keys - {r}, m, m0)
    requires a + n <= |m0| && r + n <= |m0| && m1 == Overlaid(m0, r, a, n)
    ensures Copied(m, m1, a, r, n)
    ensures Kept(h.arenas, h.live.Keys - {r}, m, m1)
  {
    hide Loose, Capacity, LiveBlock;
    assert SameBytes(m, m0, a, Capacity(h.arenas, a));
    Narrow(m, m0, a, Capacity(h.arenas, a), n);
    assert m1[r..r + n] == m0[a..a + n];
    forall b | b in h.live.Keys - {r}
      ensures SameBytes(m, m1, b, Capacity(h.arenas, b))
    {
      var c := Capacity(h.arenas, b);
      LiveApart(h, others, b, r);
      assert SameBytes(m, m0, b, c);
      Beside(m0, m1, a, r, n, b, c);
    }
  }

  // The copy leaves a region beside its target as it is.
  lemma Beside(m0: seq<Byte>, m1: seq<Byte>, a: nat, r: nat, n: nat, b: nat, c: nat)
    requires a + n <= |m0| && r + n <= |m0| && m1 == Overlaid(m0, r, a, n)
    requires b + c <= |m0| && (b + c <= r || r + n <= b)
    ensures |m1| == |m0| && m1[b..b + c] == m0[b..b + c]
  {
  }

  // ... and the release of a.
  lemma FreeResult(arenas: map<nat, Arena>, h: Heap, m: seq<Byte>, m1: seq<Byte>, m2: seq<Byte>, a: nat, r: nat, n: nat)
    requires SameCapacities(arenas, h.arenas, h.live.Keys) && r in h.live && n <= Capacity(arenas, r)
    requires Kept(arenas, h.live.Keys + {a} - {r}, m, m1) && Copied(m, m1, a, r, n)
    requires Kept(h.arenas, h.live.Keys, m1, m2)
    ensures Copied(m, m2, a, r, n)
    ensures Kept(h.arenas, h.live.Keys - {r}, m, m2)
  {
    hide Capacity;
    assert SameBytes(m1, m2, r, Capacity(h.arenas, r));
    Narrow(m1, m2, r, Capacity(h.arenas, r), n);
    forall b | b in h.live.Keys - {r}
      ensures SameBytes(m, m2, b, Capacity(h.arenas, b))
    {
      assert b in h.live.Keys && b in h.live.Keys + {a} - {r};
      assert SameBytes(m1, m2, b, Capacity(h.arenas, b));
      assert SameBytes(m, m1, b, Capacity(arenas, b));
    }
  }

  lemma Narrow(m: seq<Byte>, m': seq<Byte>, s: nat, n: nat, k: nat)
    requires SameBytes(m, m', s, n) && k <= n
    ensures m'[s..s + k] == m[s..s + k]
  {
    assert m[s..s + k] == m[s..s + n][..k];
    assert m'[s..s + k] == m'[s..s + n][..k];
  }

  function IndexOf(q: seq<nat>, x: nat): (i: nat)
    requires x in q
    ensures i < |q| && q[i] == x
  {
    if q[0] == x then 0 else 1 + IndexOf(q[1..], x)
  }

  // The first i blocks of an arena.
  ghost function FirstBlocks(p: nat, k: DescId, i: nat): set<nat>
    requires i <= BlocksPerArena(k)
  {
    Members(Blocks(p, k)[..i])
  }

  lemma NoneRemoved(q: seq<nat>, p: nat, k: DescId)
    ensures WithoutAll(q, FirstBlocks(p, k, 0)) == q
  {
    assert FirstBlocks(p, k, 0) == {};
    WithoutNone(q);
  }

  lemma AllBlocks(p: nat, k: DescId)
    ensures FirstBlocks(p, k, BlocksPerArena(k)) == Members(Blocks(p, k))
  {
    assert Blocks(p, k)[..BlocksPerArena(k)] == Blocks(p, k);
  }

  lemma OnlyLinksSame(m: seq<Byte>, u: set<nat>)
    ensures OnlyLinks(m, m, u)
  {
  }

  // Where the block is that the next round of the removal loop takes out, and what is left.
  lemma UnlinkRound(free: seq<seq<nat>>, q: seq<nat>, p: nat, k: DescId, i: nat) returns (place: nat)
    requires |free| == 7 && Distinct(q) && i < BlocksPerArena(k) && (forall a | a in Blocks(p, k) :: a in q)
    requires free[k] == WithoutAll(q, FirstBlocks(p, k, i))
    ensures place < |free[k]| && free[k][place] == BlockAt(p, k, i)
    ensures RemoveAt(free[k], place) == WithoutAll(q, FirstBlocks(p, k, i + 1))
  {
    hide Blocks, BlockAt, RemoveAt, WithoutAll, Members;
    RemoveNext(q, p, k, i);
    place := IndexOf(free[k], BlockAt(p, k, i));
    RemoveOneAt(free[k], BlockAt(p, k, i));
  }

  // One round of the removal loop: block i is still listed, and what remains listed was listed before.
  lemma RemoveNext(q: seq<nat>, p: nat, k: DescId, i: nat)
    requires Distinct(q) && i < BlocksPerArena(k)
    requires forall a | a in Blocks(p, k) :: a in q
    ensures var gone := Members(Blocks(p, k)[..i]);
            && BlockAt(p, k, i) in WithoutAll(q, gone)
            && (forall y | y in WithoutAll(q, gone) :: y in q)
            && RemoveOne(WithoutAll(q, gone), BlockAt(p, k, i)) == WithoutAll(q, Members(Blocks(p, k)[..i + 1]))
  {
    var s := Blocks(p, k);
    var gone := Members(s[..i]);
    BlocksDistinct(p, k);
    assert s[i] == BlockAt(p, k, i) && s[i] in s;
    assert s[i] !in gone by {
      forall j | 0 <= j < i ensures s[j] != s[i] {}
    }
    WithoutMembers(q, gone);
    RemoveStep(q, gone, s[i]);
    assert s[..i + 1] == s[..i] + [s[i]];
    assert Members(s[..i + 1]) == gone + {s[i]};
  }

  // Dropping an arena whose blocks are all free disturbs no live block.
  lemma DropFacts(h: Heap, others: set<nat>, p: nat, k: DescId)
    requires Loose(h, others) && p in h.arenas && h.arenas[p] == Small(k, BlocksPerArena(k))
    ensures p < |h.bits| && Loose(Drop(h, p, k), others)
    ensures Bitmap.AllAre(h.bits, p, 1, true) && Quiet(h, 4096 * p, 4096)
    ensures Distinct(h.free[k]) && forall a | a in Blocks(p, k) :: a in h.free[k]
    ensures forall y | y in h.free[k] :: Quiet(h, y, 8) && y + 8 <= 4096 * |h.bits|
    ensures (set a | a in Blocks(p, k)) == Members(Blocks(p, k))
  {
    DropKeeps(h, others, p, k);
    AllFree(h, others, p);
    BlocksDistinct(p, k);
    assert Owned(h.arenas, p);
    forall y | y in h.free[k]
      ensures Quiet(h, y, 8) && y + 8 <= 4096 * |h.bits|
    {
      LinksQuiet(h, others, k, y);
    }
    forall b | b in h.live
      ensures b + Capacity(h.arenas, b) <= 4096 * p || 4096 * p + 4096 <= b
    {
      LiveInside(h, others, b);
      assert LiveBlock(h.arenas, b);
    }
  }

  // A block given back: what becomes of the heap.
  lemma BlockReturned(h: Heap, others: set<nat>, a: nat, k: DescId)
    requires Inv(h, others) && a in h.live && PageOf(a) in h.arenas && h.arenas[PageOf(a)].Small? && h.arenas[PageOf(a)].k == k
    ensures var h1, p := Put(h, a, k), PageOf(a);
            && Loose(h1, others) && h1.arenas == h.arenas[p := Small(k, h.arenas[p].freeCnt + 1)]
            && h1.arenas[p].freeCnt <= BlocksPerArena(k)
            && (h1.arenas[p].freeCnt < BlocksPerArena(k) ==> Tight(h1))
            && (forall q | q in h1.arenas && q != p && h1.arenas[q].Small? :: h1.arenas[q].freeCnt < BlocksPerArena(h1.arenas[q].k))
            && forall b | b in h1.live :: Capacity(h1.arenas, b) == Capacity(h.arenas, b)
  {
    assert |h.free| == 7;
    hide PagesInv, BitsInv, FreeInv, LiveInv, ArenaInv, BlockSize, BlocksPerArena;
    PutKeeps(h, others, a, k);
    AllFree(Put(h, a, k), others, PageOf(a));
    hide Loose;
    PutCapacities(h, a, k);
  }

  lemma PutCapacities(h: Heap, a: nat, k: DescId)
    requires |h.free| == 7 && a in h.live && PageOf(a) in h.arenas && h.arenas[PageOf(a)].Small? && h.arenas[PageOf(a)].k == k
    ensures forall b | b in h.live :: Capacity(Put(h, a, k).arenas, b) == Capacity(h.arenas, b)
  {
    hide BlockSize;
  }

  // ... and which bytes may be written meanwhile: the block itself, the links of its new neighbour, the header.
  lemma ReturnQuiet(h: Heap, others: set<nat>, a: nat, k: DescId)
    requires Inv(h, others) && a in h.live && PageOf(a) in h.arenas && h.arenas[PageOf(a)].Small? && h.arenas[PageOf(a)].k == k
    ensures var h1, p := Put(h, a, k), PageOf(a);
            && Quiet(h1, a, BlockSize(k)) && a + BlockSize(k) <= 4096 * |h.bits|
            && Quiet(h1, 4096 * p, 12) && 4096 * p + 12 <= 4096 * |h.bits|
            && (h.free[k] != [] ==> Quiet(h1, h.free[k][0], 8) && h.free[k][0] + 8 <= 4096 * |h.bits|)
  {
    var h1, p := Put(h, a, k), PageOf(a);
    BlockReturned(h, others, a, k);
    HeaderQuiet(h1, others, p);
    LiveInside(h, others, a);
    if h.free[k] != [] {
      assert h1.free[k][1] == h.free[k][0];
      LinksQuiet(h1, others, k, h.free[k][0]);
    }
    forall b | b in h1.live
      ensures b + Capacity(h1.arenas, b) <= a || a + BlockSize(k) <= b
    {
      LiveApart(h, others, a, b);
    }
  }

  lemma ArenaDropped(h: Heap, others: set<nat>, p: nat, k: DescId)
    requires Loose(h, others) && p in h.arenas && h.arenas[p] == Small(k, BlocksPerArena(k))
    requires forall q | q in h.arenas && q != p && h.arenas[q].Small? :: h.arenas[q].freeCnt < BlocksPerArena(h.arenas[q].k)
    ensures p < |h.bits| && Tight(Drop(h, p, k)) && SameBlocks(Drop(h, p, k), h)
  {
    AllFree(h, others, p);
    DropKeeps(h, others, p, k);
    forall b | b in h.live
      ensures PageOf(b) != p
    {
      assert LiveBlock(h.arenas, b);
    }
    SameInLive(Drop(h, p, k), h);
  }

  lemma SameInLive(h: Heap, h': Heap)
    requires h'.live == h.live && forall b | b in h.live :: Capacity(h'.arenas, b) == Capacity(h.arenas, b)
    ensures SameBlocks(h, h')
  {
    forall o: nat | InLive(h, o)
      ensures InLive(h', o)
    {
      var b :| b in h.live && b <= o < b + Capacity(h.arenas, b);
      assert b in h'.live && b <= o < b + Capacity(h'.arenas, b);
    }
  }

  lemma BigReturned(h: Heap, others: set<nat>, p: nat)
    requires Inv(h, others) && p in h.arenas && h.arenas[p].Big?
    ensures var n := h.arenas[p].pages;
            && n >= 1 && Bitmap.AllAre(h.bits, p, n, true)
            && var h1 := DropBig(h, p, n);
            && Inv(h1, others) && Quiet(h1, 4096 * p, 4096 * n)
            && forall b | b in h1.live :: Capacity(h1.arenas, b) == Capacity(h.arenas, b)
  {
    var n := h.arenas[p].pages;
    DropBigKeeps(h, others, p);
    var h1 := DropBig(h, p, n);
    forall q | p <= q < p + n
      ensures Owned(h.arenas, q)
    {
    }
    OwnedRemove(h, p);
    UnownedQuiet(h1, others, p, n);
    forall b | b in h1.live
      ensures PageOf(b) != p
    {
      assert LiveBlock(h.arenas, b);
    }
  }
}
