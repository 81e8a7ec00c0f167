/**
 How the kernel allocator keeps its books in the memory it manages: the header at the start
 of an arena's page, and the list links inside free blocks. Memory is a sequence of bytes,
 read four at a time; pointers are 32-bit addresses. The heads of the free lists are in the
 descriptors, outside of the pool.
 */
module InBand {
  import opened Arenas

  type Byte = b: int | 0 <= b < 256

  const MAGIC: nat := 0x9a548eed

  /* ----- words ----- */

  /** The 32-bit word at offset o, lowest byte first. */
  function Word(m: seq<Byte>, o: nat): nat {
    if o + 4 <= |m| then m[o] as int + 0x100 * (m[o + 1] as int) + 0x1_0000 * (m[o + 2] as int) + 0x100_0000 * (m[o + 3] as int) else 0
  }

  function SetWord(m: seq<Byte>, o: nat, w: nat): (m': seq<Byte>)
    requires o + 4 <= |m| && w < 0x1_0000_0000
    ensures |m'| == |m|
    ensures forall i | 0 <= i < |m| && !(o <= i < o + 4) :: m'[i] == m[i]
  {
    m[o := w % 0x100][o + 1 := w / 0x100 % 0x100][o + 2 := w / 0x1_0000 % 0x100][o + 3 := w / 0x100_0000]
  }

  lemma BytesOfWord(w: nat)
    requires w < 0x1_0000_0000
    ensures w == w % 0x100 + 0x100 * (w / 0x100 % 0x100) + 0x1_0000 * (w / 0x1_0000 % 0x100) + 0x100_0000 * (w / 0x100_0000)
  {
  }

  // Aligned words are the same or apart.
  lemma WordSet(m: seq<Byte>, o: nat, w: nat, p: nat)
    requires o + 4 <= |m| && w < 0x1_0000_0000 && o % 4 == 0 && p % 4 == 0
    ensures Word(SetWord(m, o, w), p) == if p == o then w else Word(m, p)
  {
    if p == o {
      BytesOfWord(w);
    }
  }

  lemma WordSame(m: seq<Byte>, m': seq<Byte>, o: nat)
    requires |m'| == |m| && forall i | o <= i < o + 4 && i < |m| :: m'[i] == m[i]
    ensures Word(m', o) == Word(m, o)
  {
  }

  /* ----- pointers ----- */

  /** Where the pool and the descriptors are in the kernel's address space. */
  datatype Layout = Layout(pool: nat, descs: nat)

  /** They do not overlap; struct desc has 48 bytes, with the ends of its list at 8 and 16. */
  predicate Good(l: Layout, size: nat) {
    && l.pool + size <= 0x1_0000_0000 && 0 < l.descs && l.descs + 7 * 48 <= 0x1_0000_0000
    && (l.descs + 7 * 48 <= l.pool || l.pool + size <= l.descs)
  }

  function DescPtr(l: Layout, k: DescId): nat { l.descs + 48 * k }
  function HeadPtr(l: Layout, k: DescId): nat { DescPtr(l, k) + 8 }
  function TailPtr(l: Layout, k: DescId): nat { DescPtr(l, k) + 16 }
  function Ptr(l: Layout, a: nat): nat { l.pool + a }

  // The elements before and after place i of list q, the list's ends included.
  function PrevPtr(l: Layout, k: DescId, q: seq<nat>, i: nat): nat
    requires i <= |q|
  {
    if i == 0 then HeadPtr(l, k) else Ptr(l, q[i - 1])
  }

  function NodePtr(l: Layout, k: DescId, q: seq<nat>, i: nat): nat
    requires i <= |q|
  {
    if i == |q| then TailPtr(l, k) else Ptr(l, q[i])
  }

  /** The free list of descriptor k: each block's first two words point to its neighbours, the descriptor to both ends. */
  ghost predicate Linked(l: Layout, m: seq<Byte>, k: DescId, q: seq<nat>, first: nat, last: nat) {
    && first == NodePtr(l, k, q, 0) && last == PrevPtr(l, k, q, |q|)
    && forall i {:trigger Word(m, q[i])} | 0 <= i < |q| :: Word(m, q[i]) == PrevPtr(l, k, q, i) && Word(m, q[i] + 4) == NodePtr(l, k, q, i + 1)
  }

  /** The header of the arena on page p. */
  ghost predicate Headed(l: Layout, m: seq<Byte>, p: nat, a: Arena) {
    && Word(m, 4096 * p) == MAGIC
    && match a
       case Small(k, freeCnt) => Word(m, 4096 * p + 4) == DescPtr(l, k) && Word(m, 4096 * p + 8) == freeCnt
       case Big(pages) => Word(m, 4096 * p + 4) == 0 && Word(m, 4096 * p + 8) == pages
  }

  /** Memory and list ends say what arenas there are and which blocks are free. */
  ghost predicate Encodes(l: Layout, m: seq<Byte>, firsts: seq<nat>, lasts: seq<nat>, arenas: map<nat, Arena>, free: seq<seq<nat>>) {
    && |firsts| == |lasts| == |free| == 7
    && (forall k: DescId :: Linked(l, m, k, free[k], firsts[k], lasts[k]))
    && (forall p | p in arenas :: Headed(l, m, p, arenas[p]))
  }

  /* ----- where the words are ----- */

  // Blocks with room for links that do not overlap each other or any header.
  ghost predicate Spread(u: set<nat>, size: nat) {
    && (forall x | x in u :: x % 4 == 0 && 12 <= x % 4096 <= 4080 && x + 16 <= size)
    && (forall x, y | x in u && y in u && x < y :: x + 16 <= y)
  }

  // Lists of such blocks with no block twice.
  ghost predicate Lists(free: seq<seq<nat>>, u: set<nat>) {
    && |free| == 7
    && (forall k: DescId :: Distinct(free[k]) && forall i | 0 <= i < |free[k]| :: free[k][i] in u)
    && (forall j: DescId, k: DescId, i, i' | j != k && 0 <= i < |free[j]| && 0 <= i' < |free[k]| :: free[j][i] != free[k][i'])
  }

  // Only link words of the given blocks have changed.
  ghost predicate OnlyLinks(m: seq<Byte>, m': seq<Byte>, u: set<nat>) {
    |m'| == |m| && forall o | 0 <= o < |m| && (forall x | x in u :: o < x || x + 8 <= o) :: m'[o] == m[o]
  }

  lemma LinkWritten(m: seq<Byte>, x: nat, o: nat, w: nat, u: set<nat>)
    requires x in u && Spread(u, |m|) && w < 0x1_0000_0000 && (o == x || o == x + 4)
    ensures OnlyLinks(m, SetWord(m, o, w), u)
  {
  }

  lemma OnlyLinksTrans(m: seq<Byte>, m1: seq<Byte>, m2: seq<Byte>, u: set<nat>)
    requires OnlyLinks(m, m1, u) && OnlyLinks(m1, m2, u)
    ensures OnlyLinks(m, m2, u)
  {
  }

  // Headers are not links.
  lemma HeaderKept(l: Layout, m: seq<Byte>, m': seq<Byte>, u: set<nat>, p: nat, a: Arena)
    requires OnlyLinks(m, m', u) && Spread(u, |m|) && Headed(l, m, p, a)
    ensures Headed(l, m', p, a)
  {
    hide Word;
    forall o | 4096 * p <= o < 4096 * p + 12 && o < |m|
      ensures m'[o] == m[o]
    {
      forall x | x in u
        ensures o < x || x + 8 <= o
      {
        BesideHeader(x, p, o, |m|, u);
      }
    }
    WordSame(m, m', 4096 * p);
    WordSame(m, m', 4096 * p + 4);
    WordSame(m, m', 4096 * p + 8);
  }

  lemma BesideHeader(x: nat, p: nat, o: int, size: nat, u: set<nat>)
    requires x in u && Spread(u, size) && 4096 * p <= o < 4096 * p + 12
    ensures o < x || x + 8 <= o
  {
    var q := x / 4096;
    assert x == 4096 * q + x % 4096;
  }

  /* ----- the list operations ----- */

  // A node is an element of the list or one of its ends.
  function SetIf(c: bool, m: seq<Byte>, o: nat, w: nat): (m': seq<Byte>)
    requires c ==> o + 4 <= |m| && w < 0x1_0000_0000
    ensures |m'| == |m|
  {
    if c then SetWord(m, o, w) else m
  }

  lemma WordSetIf(c: bool, m: seq<Byte>, o: nat, w: nat, p: nat)
    requires c ==> o + 4 <= |m| && w < 0x1_0000_0000 && o % 4 == 0
    requires p % 4 == 0
    ensures Word(SetIf(c, m, o, w), p) == if c && p == o then w else Word(m, p)
  {
    hide Word, SetWord;
    if c {
      WordSet(m, o, w, p);
    }
  }

  // The memory after b was linked in at place i of list q.
  function Inserted(l: Layout, m: seq<Byte>, k: DescId, q: seq<nat>, i: nat, b: nat, u: set<nat>): (m': seq<Byte>)
    requires Good(l, |m|) && Spread(u, |m|) && i <= |q| && b in u && forall j | 0 <= j < |q| :: q[j] in u
    ensures |m'| == |m|
  {
    var m1 := SetWord(m, b, PrevPtr(l, k, q, i));
    var m2 := SetWord(m1, b + 4, NodePtr(l, k, q, i));
    var m3 := SetIf(i > 0, m2, if i > 0 then q[i - 1] + 4 else 0, Ptr(l, b));
    SetIf(i < |q|, m3, if i < |q| then q[i] else 0, Ptr(l, b))
  }

  function InsertAt(q: seq<nat>, i: nat, b: nat): (r: seq<nat>)
    requires i <= |q|
    ensures |r| == |q| + 1
  {
    q[..i] + [b] + q[i..]
  }

  lemma FourWords(m: seq<Byte>, b: nat, prev: nat, next: nat, c: bool, x: nat, d: bool, y: nat, w: nat, o: nat)
    requires b + 8 <= |m| && b % 4 == 0 && prev < 0x1_0000_0000 && next < 0x1_0000_0000 && w < 0x1_0000_0000 && o % 4 == 0
    requires (c ==> x + 4 <= |m| && x % 4 == 0) && (d ==> y + 4 <= |m| && y % 4 == 0)
    ensures Word(SetIf(d, SetIf(c, SetWord(SetWord(m, b, prev), b + 4, next), x, w), y, w), o) ==
      if d && o == y then w else if c && o == x then w else if o == b + 4 then next else if o == b then prev else Word(m, o)
  {
    hide Word, SetWord, SetIf;
    var m1 := SetWord(m, b, prev);
    var m2 := SetWord(m1, b + 4, next);
    WordSet(m, b, prev, o);
    WordSet(m1, b + 4, next, o);
    WordSetIf(c, m2, x, w, o);
    WordSetIf(d, SetIf(c, m2, x, w), y, w, o);
  }

  // Pointers are words.
  lemma PointersFit(l: Layout, size: nat, k: DescId, q: seq<nat>, i: nat, b: nat, u: set<nat>)
    requires Good(l, size) && Spread(u, size) && i <= |q| && b in u && forall j | 0 <= j < |q| :: q[j] in u
    ensures PrevPtr(l, k, q, i) < 0x1_0000_0000 && NodePtr(l, k, q, i) < 0x1_0000_0000 && Ptr(l, b) < 0x1_0000_0000
  {
    hide Spread;
    Aligned(u, size, b);
    if i > 0 { Aligned(u, size, q[i - 1]); }
    if i < |q| { Aligned(u, size, q[i]); }
  }

  lemma InsertedWord(l: Layout, m: seq<Byte>, k: DescId, q: seq<nat>, i: nat, b: nat, u: set<nat>, o: nat)
    requires Good(l, |m|) && Spread(u, |m|) && i <= |q| && b in u && (forall j | 0 <= j < |q| :: q[j] in u) && o % 4 == 0
    ensures Word(Inserted(l, m, k, q, i, b, u), o) ==
      if i < |q| && o == q[i] then Ptr(l, b) else if i > 0 && o == q[i - 1] + 4 then Ptr(l, b)
      else if o == b + 4 then NodePtr(l, k, q, i) else if o == b then PrevPtr(l, k, q, i) else Word(m, o)
  {
    hide Word, SetWord, SetIf, Good, Spread, PrevPtr, NodePtr;
    PointersFit(l, |m|, k, q, i, b, u);
    Aligned(u, |m|, b);
    if i > 0 { Aligned(u, |m|, q[i - 1]); }
    if i < |q| { Aligned(u, |m|, q[i]); }
    FourWords(m, b, PrevPtr(l, k, q, i), NodePtr(l, k, q, i), i > 0, if i > 0 then q[i - 1] + 4 else 0,
              i < |q|, if i < |q| then q[i] else 0, Ptr(l, b), o);
  }

  // Words of two different blocks are different.
  lemma ApartWords(u: set<nat>, size: nat, x: nat, y: nat)
    requires Spread(u, size) && x in u && y in u && x != y
    ensures x != y + 4 && x + 4 != y && x + 4 != y + 4
  {
  }

  lemma InsertAtIndex(q: seq<nat>, i: nat, b: nat, j: nat)
    requires i <= |q| && j <= |q|
    ensures InsertAt(q, i, b)[j] == if j < i then q[j] else if j == i then b else q[j - 1]
  {
  }

  lemma LinkedAt(l: Layout, m: seq<Byte>, k: DescId, q: seq<nat>, first: nat, last: nat, j: nat)
    requires Linked(l, m, k, q, first, last) && j < |q|
    ensures Word(m, q[j]) == PrevPtr(l, k, q, j) && Word(m, q[j] + 4) == NodePtr(l, k, q, j + 1)
  {
    hide Word;
  }

  lemma Aligned(u: set<nat>, size: nat, x: nat)
    requires Spread(u, size) && x in u
    ensures x % 4 == 0 && (x + 4) % 4 == 0 && x + 16 <= size
  {
  }

  /** list_insert. */
  lemma InsertLinks(l: Layout, m: seq<Byte>, k: DescId, q: seq<nat>, first: nat, last: nat, i: nat, b: nat, u: set<nat>)
    requires Good(l, |m|) && Spread(u, |m|) && i <= |q| && b in u && b !in q && (forall j | 0 <= j < |q| :: q[j] in u) && Distinct(q)
    requires Linked(l, m, k, q, first, last)
    ensures Linked(l, Inserted(l, m, k, q, i, b, u), k, InsertAt(q, i, b), if i == 0 then Ptr(l, b) else first, if i == |q| then Ptr(l, b) else last)
  {
    hide Word, Inserted, Good, Spread, InsertAt, Distinct, PrevPtr, NodePtr;
    var m', r := Inserted(l, m, k, q, i, b, u), InsertAt(q, i, b);
    InsertEnds(l, k, q, i, b);
    forall j | 0 <= j < |r|
      ensures Word(m', r[j]) == PrevPtr(l, k, r, j) && Word(m', r[j] + 4) == NodePtr(l, k, r, j + 1)
    {
      InsertedAt(l, m, k, q, first, last, i, b, u, j);
    }
  }

  lemma InsertEnds(l: Layout, k: DescId, q: seq<nat>, i: nat, b: nat)
    requires i <= |q|
    ensures var r := InsertAt(q, i, b);
      && |r| == |q| + 1
      && NodePtr(l, k, r, 0) == (if i == 0 then Ptr(l, b) else NodePtr(l, k, q, 0))
      && PrevPtr(l, k, r, |r|) == (if i == |q| then Ptr(l, b) else PrevPtr(l, k, q, |q|))
  {
  }

  lemma InsertedAt(l: Layout, m: seq<Byte>, k: DescId, q: seq<nat>, first: nat, last: nat, i: nat, b: nat, u: set<nat>, j: nat)
    requires Good(l, |m|) && Spread(u, |m|) && i <= |q| && b in u && b !in q && (forall j | 0 <= j < |q| :: q[j] in u) && Distinct(q)
    requires Linked(l, m, k, q, first, last) && j <= |q|
    ensures var m', r := Inserted(l, m, k, q, i, b, u), InsertAt(q, i, b);
      Word(m', r[j]) == PrevPtr(l, k, r, j) && Word(m', r[j] + 4) == NodePtr(l, k, r, j + 1)
  {
    hide Word, Inserted, Good, Spread, Linked, InsertAt;
    var r := InsertAt(q, i, b);
    InsertAtIndex(q, i, b, j);
    var x := r[j];
    Aligned(u, |m|, x);
    InsertedWord(l, m, k, q, i, b, u, x);
    InsertedWord(l, m, k, q, i, b, u, x + 4);
    if x != b { ApartWords(u, |m|, x, b); }
    if i < |q| && x != q[i] { ApartWords(u, |m|, x, q[i]); }
    if i > 0 && x != q[i - 1] { ApartWords(u, |m|, x, q[i - 1]); }
    if j > 0 { InsertAtIndex(q, i, b, j - 1); }
    if j < |q| { InsertAtIndex(q, i, b, j + 1); }
    if j != i {
      LinkedAt(l, m, k, q, first, last, if j < i then j else j - 1);
    }
  }

  // The memory after the element at place i of list q was linked out.
  function Unlinked(l: Layout, m: seq<Byte>, k: DescId, q: seq<nat>, i: nat, u: set<nat>): (m': seq<Byte>)
    requires Good(l, |m|) && Spread(u, |m|) && i < |q| && forall j | 0 <= j < |q| :: q[j] in u
    ensures |m'| == |m|
  {
    var m1 := SetIf(i > 0, m, if i > 0 then q[i - 1] + 4 else 0, NodePtr(l, k, q, i + 1));
    SetIf(i + 1 < |q|, m1, if i + 1 < |q| then q[i + 1] else 0, PrevPtr(l, k, q, i))
  }

  function RemoveAt(q: seq<nat>, i: nat): (r: seq<nat>)
    requires i < |q|
    ensures |r| == |q| - 1
  {
    q[..i] + q[i + 1..]
  }

  lemma RemoveAtIndex(q: seq<nat>, i: nat, j: nat)
    requires i < |q| && j < |q| - 1
    ensures RemoveAt(q, i)[j] == if j < i then q[j] else q[j + 1]
  {
  }

  lemma UnlinkedWord(l: Layout, m: seq<Byte>, k: DescId, q: seq<nat>, i: nat, u: set<nat>, o: nat)
    requires Good(l, |m|) && Spread(u, |m|) && i < |q| && (forall j | 0 <= j < |q| :: q[j] in u) && o % 4 == 0
    ensures Word(Unlinked(l, m, k, q, i, u), o) ==
      if i + 1 < |q| && o == q[i + 1] then PrevPtr(l, k, q, i) else if i > 0 && o == q[i - 1] + 4 then NodePtr(l, k, q, i + 1) else Word(m, o)
  {
    hide Word, SetWord, SetIf, Good, Spread, PrevPtr, NodePtr;
    PointersFit(l, |m|, k, q, i, q[i], u);
    PointersFit(l, |m|, k, q, i + 1, q[i], u);
    if i > 0 { Aligned(u, |m|, q[i - 1]); }
    if i + 1 < |q| { Aligned(u, |m|, q[i + 1]); }
    var m1 := SetIf(i > 0, m, if i > 0 then q[i - 1] + 4 else 0, NodePtr(l, k, q, i + 1));
    WordSetIf(i > 0, m, if i > 0 then q[i - 1] + 4 else 0, NodePtr(l, k, q, i + 1), o);
    WordSetIf(i + 1 < |q|, m1, if i + 1 < |q| then q[i + 1] else 0, PrevPtr(l, k, q, i), o);
  }

  /** list_remove. */
  lemma UnlinkLinks(l: Layout, m: seq<Byte>, k: DescId, q: seq<nat>, first: nat, last: nat, i: nat, u: set<nat>)
    requires Good(l, |m|) && Spread(u, |m|) && i < |q| && (forall j | 0 <= j < |q| :: q[j] in u) && Distinct(q)
    requires Linked(l, m, k, q, first, last)
    ensures Linked(l, Unlinked(l, m, k, q, i, u), k, RemoveAt(q, i),
                   if i == 0 then NodePtr(l, k, q, 1) else first, if i + 1 == |q| then PrevPtr(l, k, q, i) else last)
  {
    hide Word, Unlinked, Good, Spread, RemoveAt, Distinct;
    var m', r := Unlinked(l, m, k, q, i, u), RemoveAt(q, i);
    if |q| > 1 {
      RemoveAtIndex(q, i, 0);
      RemoveAtIndex(q, i, |q| - 2);
    }
    forall j | 0 <= j < |r|
      ensures Word(m', r[j]) == PrevPtr(l, k, r, j) && Word(m', r[j] + 4) == NodePtr(l, k, r, j + 1)
    {
      UnlinkedAt(l, m, k, q, first, last, i, u, j);
    }
  }

  lemma UnlinkedAt(l: Layout, m: seq<Byte>, k: DescId, q: seq<nat>, first: nat, last: nat, i: nat, u: set<nat>, j: nat)
    requires Good(l, |m|) && Spread(u, |m|) && i < |q| && (forall j | 0 <= j < |q| :: q[j] in u) && Distinct(q)
    requires Linked(l, m, k, q, first, last) && j < |q| - 1
    ensures var m', r := Unlinked(l, m, k, q, i, u), RemoveAt(q, i);
      Word(m', r[j]) == PrevPtr(l, k, r, j) && Word(m', r[j] + 4) == NodePtr(l, k, r, j + 1)
  {
    hide Word, Unlinked, Good, Spread, Linked, RemoveAt;
    var r := RemoveAt(q, i);
    RemoveAtIndex(q, i, j);
    var x := r[j];
    Aligned(u, |m|, x);
    UnlinkedWord(l, m, k, q, i, u, x);
    UnlinkedWord(l, m, k, q, i, u, x + 4);
    if i + 1 < |q| && x != q[i + 1] { ApartWords(u, |m|, x, q[i + 1]); }
    if i > 0 && x != q[i - 1] { ApartWords(u, |m|, x, q[i - 1]); }
    if j > 0 { RemoveAtIndex(q, i, j - 1); }
    if j + 1 < |q| - 1 { RemoveAtIndex(q, i, j + 1); }
    LinkedAt(l, m, k, q, first, last, if j < i then j else j + 1);
  }

  /* ----- all lists and headers ----- */

  // The words of the blocks in q are the same.
  ghost predicate SameWords(m: seq<Byte>, m': seq<Byte>, q: seq<nat>) {
    forall i | 0 <= i < |q| :: Word(m', q[i]) == Word(m, q[i]) && Word(m', q[i] + 4) == Word(m, q[i] + 4)
  }

  lemma StillLinked(l: Layout, m: seq<Byte>, m': seq<Byte>, k: DescId, q: seq<nat>, first: nat, last: nat)
    requires Linked(l, m, k, q, first, last) && SameWords(m, m', q)
    ensures Linked(l, m', k, q, first, last)
  {
    hide Word;
  }

  // Linking in and out is felt by no other list.
  lemma OthersInserted(l: Layout, m: seq<Byte>, k: DescId, q: seq<nat>, i: nat, b: nat, u: set<nat>, r: seq<nat>)
    requires Good(l, |m|) && Spread(u, |m|) && i <= |q| && b in u && (forall j | 0 <= j < |q| :: q[j] in u)
    requires forall j | 0 <= j < |r| :: r[j] in u && r[j] != b && r[j] !in q
    ensures SameWords(m, Inserted(l, m, k, q, i, b, u), r)
  {
    hide Word, Inserted, Good, Spread;
    forall j | 0 <= j < |r|
      ensures Word(Inserted(l, m, k, q, i, b, u), r[j]) == Word(m, r[j]) && Word(Inserted(l, m, k, q, i, b, u), r[j] + 4) == Word(m, r[j] + 4)
    {
      var x := r[j];
      Aligned(u, |m|, x);
      InsertedWord(l, m, k, q, i, b, u, x);
      InsertedWord(l, m, k, q, i, b, u, x + 4);
      ApartWords(u, |m|, x, b);
      if i < |q| { ApartWords(u, |m|, x, q[i]); }
      if i > 0 { ApartWords(u, |m|, x, q[i - 1]); }
    }
  }

  lemma OthersUnlinked(l: Layout, m: seq<Byte>, k: DescId, q: seq<nat>, i: nat, u: set<nat>, r: seq<nat>)
    requires Good(l, |m|) && Spread(u, |m|) && i < |q| && (forall j | 0 <= j < |q| :: q[j] in u)
    requires forall j | 0 <= j < |r| :: r[j] in u && r[j] !in q
    ensures SameWords(m, Unlinked(l, m, k, q, i, u), r)
  {
    hide Word, Unlinked, Good, Spread;
    forall j | 0 <= j < |r|
      ensures Word(Unlinked(l, m, k, q, i, u), r[j]) == Word(m, r[j]) && Word(Unlinked(l, m, k, q, i, u), r[j] + 4) == Word(m, r[j] + 4)
    {
      var x := r[j];
      Aligned(u, |m|, x);
      UnlinkedWord(l, m, k, q, i, u, x);
      UnlinkedWord(l, m, k, q, i, u, x + 4);
      if i + 1 < |q| { ApartWords(u, |m|, x, q[i + 1]); }
      if i > 0 { ApartWords(u, |m|, x, q[i - 1]); }
    }
  }

  lemma SetIfLinks(c: bool, m: seq<Byte>, x: nat, o: nat, w: nat, u: set<nat>)
    requires c ==> x in u && w < 0x1_0000_0000 && (o == x || o == x + 4) && o + 4 <= |m|
    requires Spread(u, |m|)
    ensures OnlyLinks(m, SetIf(c, m, o, w), u)
  {
    hide SetWord, Spread;
    if c {
      LinkWritten(m, x, o, w, u);
    }
  }

  lemma InsertedOnly(l: Layout, m: seq<Byte>, k: DescId, q: seq<nat>, i: nat, b: nat, u: set<nat>)
    requires Good(l, |m|) && Spread(u, |m|) && i <= |q| && b in u && forall j | 0 <= j < |q| :: q[j] in u
    ensures OnlyLinks(m, Inserted(l, m, k, q, i, b, u), u)
  {
    hide SetWord, SetIf, OnlyLinks;
    var m1 := SetWord(m, b, PrevPtr(l, k, q, i));
    var m2 := SetWord(m1, b + 4, NodePtr(l, k, q, i));
    var m3 := SetIf(i > 0, m2, if i > 0 then q[i - 1] + 4 else 0, Ptr(l, b));
    var m4 := SetIf(i < |q|, m3, if i < |q| then q[i] else 0, Ptr(l, b));
    LinkWritten(m, b, b, PrevPtr(l, k, q, i), u);
    LinkWritten(m1, b, b + 4, NodePtr(l, k, q, i), u);
    SetIfLinks(i > 0, m2, if i > 0 then q[i - 1] else 0, if i > 0 then q[i - 1] + 4 else 0, Ptr(l, b), u);
    SetIfLinks(i < |q|, m3, if i < |q| then q[i] else 0, if i < |q| then q[i] else 0, Ptr(l, b), u);
    OnlyLinksTrans(m, m1, m2, u);
    OnlyLinksTrans(m, m2, m3, u);
    OnlyLinksTrans(m, m3, m4, u);
  }

  lemma UnlinkedOnly(l: Layout, m: seq<Byte>, k: DescId, q: seq<nat>, i: nat, u: set<nat>)
    requires Good(l, |m|) && Spread(u, |m|) && i < |q| && forall j | 0 <= j < |q| :: q[j] in u
    ensures OnlyLinks(m, Unlinked(l, m, k, q, i, u), u)
  {
    hide SetWord, SetIf, OnlyLinks;
    var m1 := SetIf(i > 0, m, if i > 0 then q[i - 1] + 4 else 0, NodePtr(l, k, q, i + 1));
    var m2 := SetIf(i + 1 < |q|, m1, if i + 1 < |q| then q[i + 1] else 0, PrevPtr(l, k, q, i));
    SetIfLinks(i > 0, m, if i > 0 then q[i - 1] else 0, if i > 0 then q[i - 1] + 4 else 0, NodePtr(l, k, q, i + 1), u);
    SetIfLinks(i + 1 < |q|, m1, if i + 1 < |q| then q[i + 1] else 0, if i + 1 < |q| then q[i + 1] else 0, PrevPtr(l, k, q, i), u);
    OnlyLinksTrans(m, m1, m2, u);
  }

  lemma InList(free: seq<seq<nat>>, u: set<nat>, k: DescId)
    requires Lists(free, u)
    ensures Distinct(free[k]) && forall i | 0 <= i < |free[k]| :: free[k][i] in u
  {
  }

  lemma OtherList(free: seq<seq<nat>>, u: set<nat>, j: DescId, k: DescId)
    requires Lists(free, u) && j != k
    ensures forall i | 0 <= i < |free[j]| :: free[j][i] in u && free[j][i] !in free[k]
  {
  }

  /** Linking a block in keeps memory and books in step. */
  lemma InsertEncodes(l: Layout, m: seq<Byte>, firsts: seq<nat>, lasts: seq<nat>, arenas: map<nat, Arena>, free: seq<seq<nat>>,
                      k: DescId, i: nat, b: nat, u: set<nat>)
    requires Good(l, |m|) && Spread(u, |m|) && Lists(free, u) && Encodes(l, m, firsts, lasts, arenas, free)
    requires i <= |free[k]| && b in u && forall j: DescId :: b !in free[j]
    ensures (forall j | 0 <= j < |free[k]| :: free[k][j] in u)
    ensures Encodes(l, Inserted(l, m, k, free[k], i, b, u), firsts[k := if i == 0 then Ptr(l, b) else firsts[k]],
                    lasts[k := if i == |free[k]| then Ptr(l, b) else lasts[k]], arenas, free[k := InsertAt(free[k], i, b)])
    ensures OnlyLinks(m, Inserted(l, m, k, free[k], i, b, u), u)
  {
    hide Word, Inserted, Good, Spread, Lists, Linked, Headed, OnlyLinks, InsertAt, Distinct;
    var q := free[k];
    InList(free, u, k);
    InsertLinks(l, m, k, q, firsts[k], lasts[k], i, b, u);
    InsertedOnly(l, m, k, q, i, b, u);
    var m' := Inserted(l, m, k, q, i, b, u);
    forall j: DescId | j != k
      ensures Linked(l, m', j, free[j], firsts[j], lasts[j])
    {
      OtherList(free, u, j, k);
      OthersInserted(l, m, k, q, i, b, u, free[j]);
      StillLinked(l, m, m', j, free[j], firsts[j], lasts[j]);
    }
    forall p | p in arenas
      ensures Headed(l, m', p, arenas[p])
    {
      HeaderKept(l, m, m', u, p, arenas[p]);
    }
  }

  /** So does linking one out. */
  lemma UnlinkEncodes(l: Layout, m: seq<Byte>, firsts: seq<nat>, lasts: seq<nat>, arenas: map<nat, Arena>, free: seq<seq<nat>>,
                      k: DescId, i: nat, u: set<nat>)
    requires Good(l, |m|) && Spread(u, |m|) && Lists(free, u) && Encodes(l, m, firsts, lasts, arenas, free)
    requires i < |free[k]|
    ensures (forall j | 0 <= j < |free[k]| :: free[k][j] in u)
    ensures Encodes(l, Unlinked(l, m, k, free[k], i, u), firsts[k := if i == 0 then NodePtr(l, k, free[k], 1) else firsts[k]],
                    lasts[k := if i + 1 == |free[k]| then PrevPtr(l, k, free[k], i) else lasts[k]], arenas, free[k := RemoveAt(free[k], i)])
    ensures OnlyLinks(m, Unlinked(l, m, k, free[k], i, u), u)
  {
    hide Word, Unlinked, Good, Spread, Lists, Linked, Headed, OnlyLinks, RemoveAt, Distinct;
    var q := free[k];
    InList(free, u, k);
    UnlinkLinks(l, m, k, q, firsts[k], lasts[k], i, u);
    UnlinkedOnly(l, m, k, q, i, u);
    var m' := Unlinked(l, m, k, q, i, u);
    forall j: DescId | j != k
      ensures Linked(l, m', j, free[j], firsts[j], lasts[j])
    {
      OtherList(free, u, j, k);
      OthersUnlinked(l, m, k, q, i, u, free[j]);
      StillLinked(l, m, m', j, free[j], firsts[j], lasts[j]);
    }
    forall p | p in arenas
      ensures Headed(l, m', p, arenas[p])
    {
      HeaderKept(l, m, m', u, p, arenas[p]);
    }
  }

  /* ----- headers ----- */

  function WithHeader(m: seq<Byte>, p: nat, desc: nat, cnt: nat): (m': seq<Byte>)
    requires 4096 * p + 12 <= |m| && desc < 0x1_0000_0000 && cnt < 0x1_0000_0000
    ensures |m'| == |m|
  {
    SetWord(SetWord(SetWord(m, 4096 * p, MAGIC), 4096 * p + 4, desc), 4096 * p + 8, cnt)
  }

  lemma ThreeWords(m: seq<Byte>, s: nat, desc: nat, cnt: nat, o: nat)
    requires s + 12 <= |m| && desc < 0x1_0000_0000 && cnt < 0x1_0000_0000 && o % 4 == 0 && s % 4 == 0
    ensures Word(SetWord(SetWord(SetWord(m, s, MAGIC), s + 4, desc), s + 8, cnt), o) ==
      if o == s + 8 then cnt else if o == s + 4 then desc else if o == s then MAGIC else Word(m, o)
  {
    hide Word, SetWord;
    var m1 := SetWord(m, s, MAGIC);
    var m2 := SetWord(m1, s + 4, desc);
    WordSet(m, s, MAGIC, o);
    WordSet(m1, s + 4, desc, o);
    WordSet(m2, s + 8, cnt, o);
  }

  lemma PageAligned(p: nat)
    ensures 4096 * p % 4 == 0 && (4096 * p + 4) % 4 == 0 && (4096 * p + 8) % 4 == 0
  {
  }

  lemma WithHeaderWord(m: seq<Byte>, p: nat, desc: nat, cnt: nat, o: nat)
    requires 4096 * p + 12 <= |m| && desc < 0x1_0000_0000 && cnt < 0x1_0000_0000 && o % 4 == 0
    ensures Word(WithHeader(m, p, desc, cnt), o) ==
      if o == 4096 * p + 8 then cnt else if o == 4096 * p + 4 then desc else if o == 4096 * p then MAGIC else Word(m, o)
  {
    hide Word, SetWord;
    PageAligned(p);
    ThreeWords(m, 4096 * p, desc, cnt, o);
  }

  lemma WithHeaderBytes(m: seq<Byte>, p: nat, desc: nat, cnt: nat)
    requires 4096 * p + 12 <= |m| && desc < 0x1_0000_0000 && cnt < 0x1_0000_0000
    ensures forall o | 0 <= o < |m| && !(4096 * p <= o < 4096 * p + 12) :: WithHeader(m, p, desc, cnt)[o] == m[o]
  {
    var m1 := SetWord(m, 4096 * p, MAGIC);
    var m2 := SetWord(m1, 4096 * p + 4, desc);
    var m3 := SetWord(m2, 4096 * p + 8, cnt);
    hide SetWord;
    forall o | 0 <= o < |m| && !(4096 * p <= o < 4096 * p + 12)
      ensures m3[o] == m[o]
    {
      assert m1[o] == m[o] && m2[o] == m1[o] && m3[o] == m2[o];
    }
  }

  // The descriptor word and the count of an arena.
  function DescWord(l: Layout, a: Arena): nat { if a.Small? then DescPtr(l, a.k) else 0 }
  function CountWord(a: Arena): nat { if a.Small? then a.freeCnt else a.pages }

  lemma NotHeader(u: set<nat>, size: nat, x: nat, p: nat)
    requires Spread(u, size) && x in u
    ensures x != 4096 * p && x != 4096 * p + 4 && x != 4096 * p + 8
    ensures x + 4 != 4096 * p && x + 4 != 4096 * p + 4 && x + 4 != 4096 * p + 8
  {
    BesideHeader(x, p, 4096 * p, size, u);
    BesideHeader(x, p, 4096 * p + 4, size, u);
    BesideHeader(x, p, 4096 * p + 8, size, u);
  }

  lemma HeadedOther(l: Layout, m: seq<Byte>, p: nat, desc: nat, cnt: nat, q: nat, a: Arena)
    requires 4096 * p + 12 <= |m| && desc < 0x1_0000_0000 && cnt < 0x1_0000_0000 && q != p && Headed(l, m, q, a)
    ensures Headed(l, WithHeader(m, p, desc, cnt), q, a)
  {
    hide Word, WithHeader;
    PageAligned(q);
    WithHeaderWord(m, p, desc, cnt, 4096 * q);
    WithHeaderWord(m, p, desc, cnt, 4096 * q + 4);
    WithHeaderWord(m, p, desc, cnt, 4096 * q + 8);
  }

  lemma HeadedNew(l: Layout, m: seq<Byte>, p: nat, a: Arena)
    requires 4096 * p + 12 <= |m| && DescWord(l, a) < 0x1_0000_0000 && CountWord(a) < 0x1_0000_0000
    ensures Headed(l, WithHeader(m, p, DescWord(l, a), CountWord(a)), p, a)
  {
    hide Word, WithHeader;
    PageAligned(p);
    WithHeaderWord(m, p, DescWord(l, a), CountWord(a), 4096 * p);
    WithHeaderWord(m, p, DescWord(l, a), CountWord(a), 4096 * p + 4);
    WithHeaderWord(m, p, DescWord(l, a), CountWord(a), 4096 * p + 8);
  }

  /** Writing the header of an arena keeps memory and books in step. */
  lemma HeaderEncodes(l: Layout, m: seq<Byte>, firsts: seq<nat>, lasts: seq<nat>, arenas: map<nat, Arena>, free: seq<seq<nat>>,
                      p: nat, a: Arena, u: set<nat>)
    requires Spread(u, |m|) && Lists(free, u) && Encodes(l, m, firsts, lasts, arenas, free)
    requires 4096 * p + 12 <= |m| && DescWord(l, a) < 0x1_0000_0000 && CountWord(a) < 0x1_0000_0000
    ensures Encodes(l, WithHeader(m, p, DescWord(l, a), CountWord(a)), firsts, lasts, arenas[p := a], free)
  {
    hide Word, WithHeader, Spread, Lists, Linked, Headed;
    var m' := WithHeader(m, p, DescWord(l, a), CountWord(a));
    HeadedNew(l, m, p, a);
    forall q | q in arenas && q != p
      ensures Headed(l, m', q, arenas[q])
    {
      HeadedOther(l, m, p, DescWord(l, a), CountWord(a), q, arenas[q]);
    }
    forall k: DescId
      ensures Linked(l, m', k, free[k], firsts[k], lasts[k])
    {
      InList(free, u, k);
      forall i | 0 <= i < |free[k]|
        ensures Word(m', free[k][i]) == Word(m, free[k][i]) && Word(m', free[k][i] + 4) == Word(m, free[k][i] + 4)
      {
        Aligned(u, |m|, free[k][i]);
        NotHeader(u, |m|, free[k][i], p);
        WithHeaderWord(m, p, DescWord(l, a), CountWord(a), free[k][i]);
        WithHeaderWord(m, p, DescWord(l, a), CountWord(a), free[k][i] + 4);
      }
      StillLinked(l, m, m', k, free[k], firsts[k], lasts[k]);
    }
  }

  // Counting a block changes one word of the header.
  lemma CountSet(l: Layout, m: seq<Byte>, p: nat, a: Arena, cnt: nat)
    requires Headed(l, m, p, a) && a.Small? && 4096 * p + 12 <= |m| && DescPtr(l, a.k) < 0x1_0000_0000 && cnt < 0x1_0000_0000
    ensures SetWord(m, 4096 * p + 8, cnt) == WithHeader(m, p, DescPtr(l, a.k), cnt)
  {
    SameWordSet(m, 4096 * p, MAGIC);
    SameWordSet(m, 4096 * p + 4, DescPtr(l, a.k));
  }

  // Writing the word that is there changes nothing.
  lemma SameWordSet(m: seq<Byte>, o: nat, w: nat)
    requires o + 4 <= |m| && w < 0x1_0000_0000 && Word(m, o) == w
    ensures SetWord(m, o, w) == m
  {
    BytesBack(m[o], m[o + 1], m[o + 2], m[o + 3]);
    var m' := SetWord(m, o, w);
    assert forall i | 0 <= i < |m| :: m'[i] == m[i];
  }

  lemma LowByte(b: nat, r: nat)
    requires b < 0x100
    ensures (b + 0x100 * r) % 0x100 == b && (b + 0x100 * r) / 0x100 == r
  {
  }

  lemma DivTwice(w: nat)
    ensures w / 0x1_0000 == w / 0x100 / 0x100 && w / 0x100_0000 == w / 0x100 / 0x100 / 0x100
  {
  }

  lemma BytesBack(b0: Byte, b1: Byte, b2: Byte, b3: Byte)
    ensures var w := b0 as int + 0x100 * (b1 as int) + 0x1_0000 * (b2 as int) + 0x100_0000 * (b3 as int);
      w % 0x100 == b0 as int && w / 0x100 % 0x100 == b1 as int && w / 0x1_0000 % 0x100 == b2 as int && w / 0x100_0000 == b3 as int
  {
    var r2: nat := b2 as int + 0x100 * (b3 as int);
    var r1: nat := b1 as int + 0x100 * r2;
    var w: nat := b0 as int + 0x100 * r1;
    LowByte(b0, r1);
    LowByte(b1, r2);
    LowByte(b2, b3);
    DivTwice(w);
  }

  /* ----- everything else in memory ----- */

  // The byte at o belongs to a header or to the links of a free block.
  ghost predicate Control(arenas: map<nat, Arena>, free: seq<seq<nat>>, o: int)
    requires |free| == 7
  {
    || (exists p :: p in arenas && 4096 * p <= o < 4096 * p + 12)
    || (exists k: DescId, i :: 0 <= i < |free[k]| && free[k][i] <= o < free[k][i] + 8)
  }

  /** Memory may change elsewhere as it likes. */
  lemma ControlKept(l: Layout, m: seq<Byte>, m': seq<Byte>, firsts: seq<nat>, lasts: seq<nat>, arenas: map<nat, Arena>, free: seq<seq<nat>>)
    requires Encodes(l, m, firsts, lasts, arenas, free) && |m'| == |m|
    requires forall o | 0 <= o < |m| && Control(arenas, free, o) :: m'[o] == m[o]
    ensures Encodes(l, m', firsts, lasts, arenas, free)
  {
    hide Word, Linked;
    forall p | p in arenas
      ensures Headed(l, m', p, arenas[p])
    {
      WordSame(m, m', 4096 * p);
      WordSame(m, m', 4096 * p + 4);
      WordSame(m, m', 4096 * p + 8);
    }
    hide Headed;
    forall k: DescId
      ensures Linked(l, m', k, free[k], firsts[k], lasts[k])
    {
      forall i | 0 <= i < |free[k]|
        ensures Word(m', free[k][i]) == Word(m, free[k][i]) && Word(m', free[k][i] + 4) == Word(m, free[k][i] + 4)
      {
        WordSame(m, m', free[k][i]);
        WordSame(m, m', free[k][i] + 4);
      }
      StillLinked(l, m, m', k, free[k], firsts[k], lasts[k]);
    }
  }

  /* ----- what can be read back ----- */

  // The blocks found by following the links from pointer ptr, at most n of them.
  function Follow(l: Layout, m: seq<Byte>, ptr: nat, tail: nat, n: nat): seq<nat>
    decreases n
  {
    if n == 0 || ptr == tail || ptr < l.pool then [] else [ptr - l.pool] + Follow(l, m, Word(m, ptr - l.pool + 4), tail, n - 1)
  }

  lemma {:induction false} FollowFrom(l: Layout, m: seq<Byte>, k: DescId, q: seq<nat>, first: nat, last: nat, i: nat, n: nat)
    requires Linked(l, m, k, q, first, last) && Good(l, |m|) && i <= |q| && n >= |q| - i && forall j | 0 <= j < |q| :: q[j] < |m|
    ensures Follow(l, m, NodePtr(l, k, q, i), TailPtr(l, k), n) == q[i..]
    decreases |q| - i
  {
    hide Word;
    if i < |q| {
      LinkedAt(l, m, k, q, first, last, i);
      FollowFrom(l, m, k, q, first, last, i + 1, n - 1);
      assert q[i..] == [q[i]] + q[i + 1..];
    }
  }

  /** The free list is what following its links gives. */
  lemma ListReads(l: Layout, m: seq<Byte>, firsts: seq<nat>, lasts: seq<nat>, arenas: map<nat, Arena>, free: seq<seq<nat>>, k: DescId, n: nat)
    requires Encodes(l, m, firsts, lasts, arenas, free) && Good(l, |m|) && n >= |free[k]| && forall j | 0 <= j < |free[k]| :: free[k][j] < |m|
    ensures Follow(l, m, firsts[k], TailPtr(l, k), n) == free[k]
  {
    hide Word, Follow;
    assert Linked(l, m, k, free[k], firsts[k], lasts[k]);
    FollowFrom(l, m, k, free[k], firsts[k], lasts[k], 0, n);
  }

  /** An arena is what its header says: the descriptor pointer, null for a big block, tells which kind and size. */
  lemma HeaderReads(l: Layout, m: seq<Byte>, firsts: seq<nat>, lasts: seq<nat>, arenas: map<nat, Arena>, free: seq<seq<nat>>, p: nat)
    requires Encodes(l, m, firsts, lasts, arenas, free) && Good(l, |m|) && p in arenas
    ensures Word(m, 4096 * p) == MAGIC
    ensures var d, c := Word(m, 4096 * p + 4), Word(m, 4096 * p + 8);
      && (arenas[p].Big? <==> d == 0)
      && (d == 0 ==> arenas[p] == Big(c))
      && (d != 0 ==> d >= l.descs && (d - l.descs) / 48 < 7 && arenas[p] == Small((d - l.descs) / 48, c))
  {
    hide Word, Linked;
    assert Headed(l, m, p, arenas[p]);
  }

  /* ----- in a sound state ----- */

  lemma {:induction false} OffsetAligned(k: DescId, i: nat)
    ensures Offset(k, i) % 4 == 0
  {
    if i > 0 {
      OffsetAligned(k, i - 1);
    }
  }

  // All blocks on free lists.
  ghost function Listed(free: seq<seq<nat>>): set<nat>
    requires |free| == 7
  {
    set k: nat, i | k < 7 && 0 <= i < |free[k]| :: free[k][i]
  }

  lemma FreeBlockFits(h: Heap, others: set<nat>, k: DescId, a: nat)
    requires Loose(h, others) && FreeBlock(h, k, a)
    ensures a % 4 == 0 && 12 <= a % 4096 <= 4080 && a + 16 <= 4096 * |h.bits|
    ensures 4096 * PageOf(a) + 12 <= a && a + BlockSize(k) <= 4096 * PageOf(a) + 4096
  {
    hide Offset, BlocksPerArena;
    var p := PageOf(a);
    IsBlockInside(p, k, a);
    var i: nat :| i < BlocksPerArena(k) && a == BlockAt(p, k, i);
    OffsetAligned(k, i);
    assert p in h.arenas && p + h.arenas[p].PageCount() <= |h.bits|;
  }

  lemma FreeBlocksApart(h: Heap, others: set<nat>, j: DescId, k: DescId, a: nat, b: nat)
    requires Loose(h, others) && FreeBlock(h, j, a) && FreeBlock(h, k, b) && a < b
    ensures a + BlockSize(j) <= b
  {
    hide Loose, Offset, BlocksPerArena, BlockSize;
    FreeBlockFits(h, others, j, a);
    FreeBlockFits(h, others, k, b);
    if PageOf(a) == PageOf(b) {
      BlocksApart(PageOf(a), j, a, b);
    } else {
      assert PageOf(a) < PageOf(b);
    }
  }

  lemma ListedAre(h: Heap, a: nat) returns (k: DescId)
    requires FreeInv(h) && a in Listed(h.free)
    ensures FreeBlock(h, k, a)
  {
    var j: nat, i :| j < 7 && 0 <= i < |h.free[j]| && h.free[j][i] == a;
    k := j;
  }

  /** The blocks on the free lists do not overlap, and none is on two lists. */
  lemma SpreadOut(h: Heap, others: set<nat>)
    requires Loose(h, others)
    ensures |h.free| == 7 && Spread(Listed(h.free), 4096 * |h.bits|) && Lists(h.free, Listed(h.free))
  {
    hide BlockSize, Listed, FreeBlock;
    var u := Listed(h.free);
    forall x | x in u
      ensures x % 4 == 0 && 12 <= x % 4096 <= 4080 && x + 16 <= 4096 * |h.bits|
    {
      var k := ListedAre(h, x);
      FreeBlockFits(h, others, k, x);
    }
    forall x, y | x in u && y in u && x < y
      ensures x + 16 <= y
    {
      var j := ListedAre(h, x);
      var k := ListedAre(h, y);
      FreeBlocksApart(h, others, j, k, x, y);
    }
    ListsOf(h);
  }

  lemma ListsOf(h: Heap)
    requires FreeInv(h)
    ensures Lists(h.free, Listed(h.free))
  {
    hide IsBlock;
    forall k: DescId, i | 0 <= i < |h.free[k]|
      ensures h.free[k][i] in Listed(h.free) && FreeBlock(h, k, h.free[k][i])
    {
    }
  }

  lemma SevenLists(h: Heap, others: set<nat>)
    requires Loose(h, others)
    ensures |h.free| == 7
  {
  }

  // What is quiet holds no byte of a live block.
  lemma QuietByte(h: Heap, s: nat, n: nat, o: nat)
    requires Quiet(h, s, n) && InLive(h, o)
    ensures !(s <= o < s + n)
  {
    hide Capacity;
  }

  /** No byte of a live block belongs to a header or a link: what callers write there cannot harm the books. */
  lemma LiveIsNotControl(h: Heap, others: set<nat>, o: nat)
    requires Loose(h, others) && InLive(h, o)
    ensures |h.free| == 7 && !Control(h.arenas, h.free, o)
  {
    hide Loose, InLive, Quiet;
    SevenLists(h, others);
    forall p | p in h.arenas
      ensures !(4096 * p <= o < 4096 * p + 12)
    {
      HeaderQuiet(h, others, p);
      QuietByte(h, 4096 * p, 12, o);
    }
    forall k: DescId, i | 0 <= i < |h.free[k]|
      ensures !(h.free[k][i] <= o < h.free[k][i] + 8)
    {
      LinksQuiet(h, others, k, h.free[k][i]);
      QuietByte(h, h.free[k][i], 8, o);
    }
  }

  lemma InsertLists(free: seq<seq<nat>>, u: set<nat>, k: DescId, i: nat, b: nat)
    requires Lists(free, u) && i <= |free[k]| && b in u && forall j: DescId :: b !in free[j]
    ensures Lists(free[k := InsertAt(free[k], i, b)], u)
  {
    var q, r := free[k], InsertAt(free[k], i, b);
    forall j | 0 <= j < |r|
      ensures r[j] == if j < i then q[j] else if j == i then b else q[j - 1]
    {
      InsertAtIndex(q, i, b, j);
    }
    hide InsertAt;
    assert Distinct(r);
  }

  lemma RemoveLists(free: seq<seq<nat>>, u: set<nat>, k: DescId, i: nat)
    requires Lists(free, u) && i < |free[k]|
    ensures Lists(free[k := RemoveAt(free[k], i)], u)
  {
    var q, r := free[k], RemoveAt(free[k], i);
    forall j | 0 <= j < |r|
      ensures r[j] == if j < i then q[j] else q[j + 1]
    {
      RemoveAtIndex(q, i, j);
    }
    hide RemoveAt;
    assert Distinct(r);
  }

  // Links of blocks outside of all live blocks.
  lemma LinksSpareLive(h: Heap, m: seq<Byte>, m': seq<Byte>, u: set<nat>)
    requires OnlyLinks(m, m', u) && forall x | x in u :: Quiet(h, x, 8)
    ensures forall o: nat | o < |m| && InLive(h, o) :: m'[o] == m[o]
  {
    forall o: nat | o < |m| && InLive(h, o)
      ensures m'[o] == m[o]
    {
      var b :| b in h.live && b <= o < b + Capacity(h.arenas, b);
      hide Capacity;
      forall x | x in u
        ensures o < x || x + 8 <= o
      {
        assert Quiet(h, x, 8);
      }
    }
  }

  lemma ListedQuiet(h: Heap, others: set<nat>)
    requires Loose(h, others)
    ensures |h.free| == 7 && forall x | x in Listed(h.free) :: Quiet(h, x, 8)
  {
    assert |h.free| == 7;
    hide Loose, Quiet;
    forall x | x in Listed(h.free)
      ensures Quiet(h, x, 8)
    {
      var j: nat, i :| j < 7 && 0 <= i < |h.free[j]| && h.free[j][i] == x;
      LinksQuiet(h, others, j, x);
    }
  }

  // Pages of no arena hold no header and no free block.
  lemma UnownedNoControl(h: Heap, others: set<nat>, p: nat, n: nat)
    requires Loose(h, others) && n >= 1 && forall q | p <= q < p + n :: !Owned(h.arenas, q)
    ensures |h.free| == 7 && forall o | 4096 * p <= o < 4096 * (p + n) :: !Control(h.arenas, h.free, o)
  {
    forall q | q in h.arenas
      ensures q < p || p + n <= q
    {
      assert q <= q < q + h.arenas[q].PageCount();
      assert Owned(h.arenas, q);
    }
    hide Owned;
    forall o | 4096 * p <= o < 4096 * (p + n)
      ensures !Control(h.arenas, h.free, o)
    {
      forall k: DescId, i | 0 <= i < |h.free[k]|
        ensures !(h.free[k][i] <= o < h.free[k][i] + 8)
      {
        assert FreeBlock(h, k, h.free[k][i]);
        FreeBlockFits(h, others, k, h.free[k][i]);
      }
    }
  }

  // A live block of an arena holds no header and no free block.
  lemma LiveNoControl(h: Heap, others: set<nat>, a: nat)
    requires Loose(h, others) && a in h.live
    ensures |h.free| == 7 && forall o | a <= o < a + Capacity(h.arenas, a) :: !Control(h.arenas, h.free, o)
  {
    assert |h.free| == 7;
    hide Loose, Capacity, Control;
    forall o | a <= o < a + Capacity(h.arenas, a)
      ensures !Control(h.arenas, h.free, o)
    {
      assert InLive(h, o);
      LiveIsNotControl(h, others, o);
    }
  }

  // An empty list's head points to its tail.
  lemma EmptyIff(l: Layout, m: seq<Byte>, firsts: seq<nat>, lasts: seq<nat>, arenas: map<nat, Arena>, free: seq<seq<nat>>, k: DescId)
    requires Encodes(l, m, firsts, lasts, arenas, free) && Good(l, |m|) && forall j | 0 <= j < |free[k]| :: free[k][j] < |m|
    ensures firsts[k] == TailPtr(l, k) <==> free[k] == []
    ensures free[k] != [] ==> firsts[k] == Ptr(l, free[k][0])
  {
    hide Word, Headed;
    assert Linked(l, m, k, free[k], firsts[k], lasts[k]);
  }
}
