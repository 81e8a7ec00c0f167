/**
 The page directory: a table of 1024 page tables of 1024 entries each, and the bits of
 addresses and entries, as 32-bit words. Tables are maps from index to entry.
 */
module Pagedir {
  type Word = bv32

  const PHYS_BASE: Word := 0xc000_0000

  /* ----- addresses ----- */

  function PgOfs(va: Word): Word { va & 0xfff }
  function PgRoundDown(va: Word): Word { va & 0xffff_f000 }
  function PtNo(va: Word): Word { (va & 0x003f_f000) >> 12 }
  function PdNo(va: Word): Word { va >> 22 }

  predicate IsUser(va: Word) { va < PHYS_BASE }

  /** Kernel virtual addresses and the physical addresses behind them. */
  function Vtop(va: Word): (pa: Word)
    requires !IsUser(va)
    ensures pa < 0x4000_0000
  {
    va - PHYS_BASE
  }

  function Ptov(pa: Word): (va: Word)
    requires pa < 0x4000_0000
    ensures !IsUser(va)
  {
    pa + PHYS_BASE
  }

  /** Every address is split into three parts that make it up again. */
  lemma SplitJoins(va: Word)
    ensures PdNo(va) < 1024 && PtNo(va) < 1024 && PgOfs(va) < 4096
    ensures va == (PdNo(va) << 22) | (PtNo(va) << 12) | PgOfs(va)
  {
  }

  /** Any three parts in range make up one address, which is split into them. */
  lemma JoinSplits(d: Word, t: Word, o: Word)
    requires d < 1024 && t < 1024 && o < 4096
    ensures var va := (d << 22) | (t << 12) | o; PdNo(va) == d && PtNo(va) == t && PgOfs(va) == o
  {
  }

  lemma RoundDownJoins(va: Word)
    ensures PgRoundDown(va) == (PdNo(va) << 22) | (PtNo(va) << 12)
  {
  }

  lemma RoundDownSplits(va: Word)
    ensures PdNo(PgRoundDown(va)) == PdNo(va) && PtNo(PgRoundDown(va)) == PtNo(va) && PgOfs(PgRoundDown(va)) == 0
  {
  }

  /** Two addresses are on the same page exactly when both indexes agree. */
  lemma SamePage(a: Word, b: Word)
    ensures PdNo(a) == PdNo(b) && PtNo(a) == PtNo(b) <==> PgRoundDown(a) == PgRoundDown(b)
  {
    RoundDownJoins(a);
    RoundDownJoins(b);
    RoundDownSplits(a);
    RoundDownSplits(b);
    hide *;
  }

  /** The user half of the directory. */
  lemma UserHalf(va: Word)
    ensures IsUser(va) <==> PdNo(va) < 768
  {
  }

  /* ----- entries ----- */

  function PdeCreate(pt: Word): Word
    requires !IsUser(pt)
  {
    Vtop(pt) | 4 | 1 | 2
  }

  function PteCreateUser(page: Word, writable: bool): Word
    requires !IsUser(page)
  {
    Vtop(page) | 1 | (if writable then 2 else 0) | 4
  }

  predicate Present(e: Word) { e & 1 != 0 }
  predicate Writable(e: Word) { e & 2 != 0 }

  /** The address in a frame with the offset of va. */
  function WithOffset(frame: Word, va: Word): Word { frame + PgOfs(va) }

  /** It is in the frame, at the offset of va. */
  lemma WithOffsetInFrame(frame: Word, va: Word)
    requires PgOfs(frame) == 0
    ensures PgRoundDown(WithOffset(frame, va)) == frame && PgOfs(WithOffset(frame, va)) == PgOfs(va)
  {
  }

  // An entry whose address bits are a physical address.
  predicate Addressed(e: Word) { AddressBits(e) < 0x4000_0000 }

  function AddressBits(e: Word): Word { e & 0xffff_f000 }

  function Flagged(pa: Word, flags: Word): Word { pa | flags }

  /** pde_get_pt and pte_get_page. */
  function PageOf(e: Word): (page: Word)
    requires Addressed(e)
    ensures !IsUser(page)
  {
    Ptov(AddressBits(e))
  }

  lemma AlignedBits(pa: Word, flags: Word)
    requires PgOfs(pa) == 0 && flags < 8
    ensures AddressBits(Flagged(pa, flags)) == pa
  {
  }

  lemma FlagBits(pa: Word, flags: Word)
    requires PgOfs(pa) == 0 && flags < 8
    ensures Present(Flagged(pa, flags)) <==> Present(flags)
    ensures Writable(Flagged(pa, flags)) <==> Writable(flags)
  {
  }

  lemma AlignedVtop(page: Word)
    requires !IsUser(page) && PgOfs(page) == 0
    ensures PgOfs(Vtop(page)) == 0
  {
  }

  lemma Flags()
    ensures Present(7) && Writable(7) && Present(5) && !Writable(5)
  {
  }

  // An entry made of an aligned physical address and flags.
  lemma MadeEntry(page: Word, e: Word, flags: Word)
    requires !IsUser(page) && PgOfs(page) == 0 && flags < 8 && e == Flagged(Vtop(page), flags)
    ensures Addressed(e) && PageOf(e) == page && (Present(e) <==> Present(flags)) && (Writable(e) <==> Writable(flags))
  {
    hide AddressBits, Present, Writable, PgOfs, Vtop, Ptov, Flagged;
    AlignedVtop(page);
    AlignedBits(Vtop(page), flags);
    FlagBits(Vtop(page), flags);
    Back(page);
  }

  lemma Back(page: Word)
    requires !IsUser(page)
    ensures Ptov(Vtop(page)) == page
  {
  }

  lemma PteIs(page: Word, writable: bool)
    requires !IsUser(page)
    ensures writable ==> PteCreateUser(page, writable) == Flagged(Vtop(page), 7)
    ensures !writable ==> PteCreateUser(page, writable) == Flagged(Vtop(page), 5)
    ensures PdeCreate(page) == Flagged(Vtop(page), 7)
  {
    hide Vtop;
  }

  /** What goes into an entry comes out again. */
  lemma EntryRoundTrip(page: Word, writable: bool)
    requires !IsUser(page) && PgOfs(page) == 0
    ensures var e := PteCreateUser(page, writable); Addressed(e) && PageOf(e) == page && Present(e) && (Writable(e) <==> writable)
    ensures var e := PdeCreate(page); Addressed(e) && PageOf(e) == page && Present(e)
  {
    hide *;
    PteIs(page, writable);
    Flags();
    if writable {
      MadeEntry(page, PteCreateUser(page, writable), 7);
    } else {
      MadeEntry(page, PteCreateUser(page, writable), 5);
    }
    MadeEntry(page, PdeCreate(page), 7);
  }

  function FlagsOf(e: Word): Word { e & 0xfff }

  /** The bits of an entry: present (1), writable if asked for (2), accessible to users (4), no other flag; then the frame. */
  lemma EntryBits(page: Word, writable: bool)
    requires !IsUser(page) && PgOfs(page) == 0
    ensures FlagsOf(PteCreateUser(page, writable)) == (if writable then 7 else 5) && AddressBits(PteCreateUser(page, writable)) == Vtop(page)
    ensures FlagsOf(PdeCreate(page)) == 7 && AddressBits(PdeCreate(page)) == Vtop(page)
  {
    hide *;
    PteIs(page, writable);
    AlignedVtop(page);
    FlaggedBits(Vtop(page), 7);
    FlaggedBits(Vtop(page), 5);
  }

  lemma FlaggedBits(pa: Word, flags: Word)
    requires PgOfs(pa) == 0 && flags < 8
    ensures FlagsOf(Flagged(pa, flags)) == flags && AddressBits(Flagged(pa, flags)) == pa
  {
  }

  // Clearing the present bit.
  function Absent(e: Word): Word { e & 0xffff_fffe }

  lemma AbsentEntry(e: Word)
    ensures !Present(Absent(e)) && (Addressed(e) ==> Addressed(Absent(e)))
  {
  }

  lemma NotEmpty(e: Word)
    requires Present(e)
    ensures e != 0
  {
  }

  lemma EmptyEntry()
    ensures Addressed(0) && !Present(0)
  {
  }

  /* ----- tables ----- */

  function Num(x: Word): nat { x as nat }

  lemma NumDistinct(x: Word, y: Word)
    requires Num(x) == Num(y)
    ensures x == y
  {
    assert (x as nat) as Word == x;
  }

  /** A page of entries by index: those listed, and zeros. */
  type Table = map<nat, Word>

  function At(t: Table, k: Word): Word { if Num(k) in t then t[Num(k)] else 0 }

  function Put(t: Table, k: Word, e: Word): Table { t[Num(k) := e] }

  lemma AtPut(t: Table, k: Word, e: Word)
    ensures forall j: Word :: At(Put(t, k, e), j) == if j == k then e else At(t, j)
  {
    hide Num;
    forall j: Word
      ensures At(Put(t, k, e), j) == if j == k then e else At(t, j)
    {
      if Num(j) == Num(k) {
        NumDistinct(j, k);
      }
    }
  }

  /** Page tables by address. */
  type Tables = map<nat, Table>

  predicate Has(tables: Tables, p: Word) { Num(p) in tables }

  function TableAt(tables: Tables, p: Word): Table { if Has(tables, p) then tables[Num(p)] else map[] }

  function PutTable(tables: Tables, p: Word, t: Table): Tables { tables[Num(p) := t] }

  lemma TablePut(tables: Tables, p: Word, t: Table)
    ensures forall q: Word :: Has(PutTable(tables, p, t), q) <==> q == p || Has(tables, q)
    ensures forall q: Word :: TableAt(PutTable(tables, p, t), q) == if q == p then t else TableAt(tables, q)
  {
    hide Num;
    forall q: Word
      ensures Has(PutTable(tables, p, t), q) <==> q == p || Has(tables, q)
      ensures TableAt(PutTable(tables, p, t), q) == if q == p then t else TableAt(tables, q)
    {
      if Num(q) == Num(p) {
        NumDistinct(q, p);
      }
    }
  }

  datatype Option<T> = None | Some(value: T)

  datatype Mapping = Mapping(frame: Word, writable: bool)

  // A user entry of the directory: empty, or a page table.
  ghost predicate Entry(pde: Word, tables: Tables) {
    pde == 0 || (Present(pde) && Addressed(pde) && Has(tables, PageOf(pde)))
  }

  // Two entries have no page table in common.
  ghost predicate Distinct(a: Word, b: Word) {
    Addressed(a) && Addressed(b) && PageOf(a) != PageOf(b)
  }

  /** Every user entry has a page table of its own, and page tables hold addresses. */
  ghost predicate Inv(dir: Table, tables: Tables) {
    && (forall i: Word | i < 768 :: Entry(At(dir, i), tables))
    && (forall i: Word, j: Word | i < 768 && j < 768 && i != j && At(dir, i) != 0 && At(dir, j) != 0 :: Distinct(At(dir, i), At(dir, j)))
    && (forall p: Word, k: Word | Has(tables, p) :: Addressed(At(TableAt(tables, p), k)))
  }

  /** What an entry of a page table says. */
  function Meaning(e: Word): Option<Mapping>
    requires Addressed(e)
  {
    if Present(e) then Some(Mapping(PageOf(e), Writable(e))) else None
  }

  /** The mapping of the page with the given indexes. */
  ghost function MappedAt(dir: Table, tables: Tables, d: Word, t: Word): Option<Mapping>
    requires Inv(dir, tables) && d < 768
  {
    var pde := At(dir, d);
    if pde == 0 then None
    else
      assert Entry(pde, tables);
      Meaning(At(TableAt(tables, PageOf(pde)), t))
  }

  /** The mapping of the page that va is on. */
  ghost function Mapped(dir: Table, tables: Tables, va: Word): Option<Mapping>
    requires Inv(dir, tables) && IsUser(va)
  {
    UserHalf(va);
    MappedAt(dir, tables, PdNo(va), PtNo(va))
  }

  lemma UserEntry(dir: Table, tables: Tables, d: Word)
    requires Inv(dir, tables) && d < 768
    ensures Entry(At(dir, d), tables)
  {
    hide Entry, Distinct, At;
  }

  /** An empty page table for a directory entry that had none maps nothing more. */
  lemma TableAdded(dir: Table, tables: Tables, i: Word, pt: Word)
    requires Inv(dir, tables) && i < 768 && At(dir, i) == 0 && !IsUser(pt) && PgOfs(pt) == 0 && !Has(tables, pt)
    ensures var dir', tables' := Put(dir, i, PdeCreate(pt)), PutTable(tables, pt, map[]);
      Inv(dir', tables') && forall d: Word, t: Word | d < 768 :: MappedAt(dir', tables', d, t) == MappedAt(dir, tables, d, t)
  {
    hide PdeCreate, Present, Addressed, PageOf, Writable, IsUser, PgOfs, At, Put, Has, TableAt, PutTable;
    AtPut(dir, i, PdeCreate(pt));
    TablePut(tables, pt, map[]);
    EmptyTable();
    EntryRoundTrip(pt, true);
    EmptyEntry();
    NotEmpty(PdeCreate(pt));
    var dir', tables' := Put(dir, i, PdeCreate(pt)), PutTable(tables, pt, map[]);
    forall j: Word | j < 768
      ensures Entry(At(dir', j), tables')
    {
      assert Entry(At(dir, j), tables);
    }
    forall j: Word, k: Word | j < 768 && k < 768 && j != k && At(dir', j) != 0 && At(dir', k) != 0
      ensures Distinct(At(dir', j), At(dir', k))
    {
      assert Entry(At(dir, j), tables) && Entry(At(dir, k), tables);
    }
    forall p: Word, k: Word | Has(tables', p)
      ensures Addressed(At(TableAt(tables', p), k))
    {
      assert p != pt ==> Has(tables, p);
    }
    forall d: Word, t: Word | d < 768
      ensures MappedAt(dir', tables', d, t) == MappedAt(dir, tables, d, t)
    {
      assert Entry(At(dir, d), tables);
    }
  }

  lemma EmptyTable()
    ensures forall k: Word :: At(map[], k) == 0
  {
  }

  // The tables after entry t of the page table at d became e.
  function WithEntry(dir: Table, tables: Tables, d: Word, t: Word, e: Word): Tables
    requires Addressed(At(dir, d)) && Has(tables, PageOf(At(dir, d)))
  {
    var pt := PageOf(At(dir, d));
    PutTable(tables, pt, Put(TableAt(tables, pt), t, e))
  }

  /** Writing one entry changes the mapping of one page. */
  lemma EntryWritten(dir: Table, tables: Tables, d: Word, t: Word, e: Word)
    requires Inv(dir, tables) && d < 768 && At(dir, d) != 0 && Addressed(e)
    ensures Addressed(At(dir, d)) && Has(tables, PageOf(At(dir, d)))
    ensures var tables' := WithEntry(dir, tables, d, t, e);
      Inv(dir, tables') && forall i: Word, j: Word | i < 768 ::
        (MappedAt(dir, tables', i, j) == if i == d && j == t then Meaning(e) else MappedAt(dir, tables, i, j))
  {
    hide Present, Addressed, PageOf, Writable, Meaning, At, Put, Has, TableAt, PutTable;
    assert Entry(At(dir, d), tables);
    var pt := PageOf(At(dir, d));
    AtPut(TableAt(tables, pt), t, e);
    TablePut(tables, pt, Put(TableAt(tables, pt), t, e));
    var tables' := WithEntry(dir, tables, d, t, e);
    forall j: Word | j < 768
      ensures Entry(At(dir, j), tables')
    {
      assert Entry(At(dir, j), tables);
    }
    forall p: Word, k: Word | Has(tables', p)
      ensures Addressed(At(TableAt(tables', p), k))
    {
      assert Has(tables, p);
    }
    forall i: Word, j: Word | i < 768
      ensures MappedAt(dir, tables', i, j) == if i == d && j == t then Meaning(e) else MappedAt(dir, tables, i, j)
    {
      assert Entry(At(dir, i), tables);
      assert i != d && At(dir, i) != 0 ==> Distinct(At(dir, i), At(dir, d));
    }
  }

  /** The entries for kernel addresses are the same. */
  ghost predicate SameKernelHalf(a: Table, b: Table) {
    forall i: Word | 768 <= i :: At(a, i) == At(b, i)
  }

  class Directory {
    var dir: Table
    var tables: Tables

    ghost predicate Valid()
      reads this
    {
      Inv(dir, tables)
    }

    /** pagedir_create: the kernel's directory, whose user half is empty, is copied. */
    constructor (initPageDir: Table)
      requires forall i: Word | i < 768 :: At(initPageDir, i) == 0
      ensures Valid() && dir == initPageDir
      ensures forall va: Word | IsUser(va) :: Mapped(dir, tables, va) == None
    {
      dir, tables := initPageDir, map[];
      new;
      hide IsUser, PdNo, PtNo;
      forall va: Word | IsUser(va)
        ensures Mapped(dir, tables, va) == None
      {
        UserHalf(va);
      }
    }

    /**
     lookup_page: the page table with the entry for va. `page` is what palloc_get_page would give. Tables are created
     for user addresses only; an entry of the kernel's half must be one that pde_get_pt takes.
     */
    method LookupPage(va: Word, create: bool, page: Option<Word>) returns (pt: Option<Word>)
      requires Valid() && (create ==> IsUser(va))
      requires !IsUser(va) && At(dir, PdNo(va)) != 0 ==> Present(At(dir, PdNo(va))) && Addressed(At(dir, PdNo(va)))
      requires page.Some? ==> !IsUser(page.value) && PgOfs(page.value) == 0 && !Has(tables, page.value)
      modifies this
      ensures Valid() && (IsUser(va) <==> PdNo(va) < 768)
      ensures pt.Some? <==> old(At(dir, PdNo(va))) != 0 || (create && page.Some?)
      ensures pt.Some? ==> At(dir, PdNo(va)) != 0 && Addressed(At(dir, PdNo(va))) && pt.value == PageOf(At(dir, PdNo(va)))
      ensures pt.Some? && IsUser(va) ==> Has(tables, pt.value)
      ensures pt.None? || !create ==> dir == old(dir) && tables == old(tables)
      ensures forall d: Word, t: Word | d < 768 :: MappedAt(dir, tables, d, t) == MappedAt(old(dir), old(tables), d, t)
      ensures SameKernelHalf(old(dir), dir)
    {
      hide Inv, PdNo, IsUser, Addressed, PageOf, PgOfs, Present, PdeCreate, At, Put, Has, TableAt, PutTable;
      UserHalf(va);
      if At(dir, PdNo(va)) == 0 {
        if create {
          if page.None? {
            return None;
          }
          TableAdded(dir, tables, PdNo(va), page.value);
          AtPut(dir, PdNo(va), PdeCreate(page.value));
          dir := Put(dir, PdNo(va), PdeCreate(page.value));
          tables := PutTable(tables, page.value, map[]);
          EntryRoundTrip(page.value, true);
          NotEmpty(PdeCreate(page.value));
        } else {
          return None;
        }
      }
      if PdNo(va) < 768 {
        UserEntry(dir, tables, PdNo(va));
      }
      assert Present(At(dir, PdNo(va)));
      pt := Some(PageOf(At(dir, PdNo(va))));
    }

    /** pagedir_set_page: maps one page; the mappings of all others and the kernel's half stay. */
    method SetPage(upage: Word, kpage: Word, writable: bool, page: Option<Word>) returns (ok: bool)
      requires Valid() && PgOfs(upage) == 0 && PgOfs(kpage) == 0 && IsUser(upage) && !IsUser(kpage)
      requires Mapped(dir, tables, upage) == None
      requires page.Some? ==> !IsUser(page.value) && PgOfs(page.value) == 0 && !Has(tables, page.value)
      modifies this
      ensures Valid() && SameKernelHalf(old(dir), dir)
      ensures ok <==> old(At(dir, PdNo(upage))) != 0 || page.Some?
      ensures forall w: Word | IsUser(w) ::
        (Mapped(dir, tables, w) == if ok && PgRoundDown(w) == PgRoundDown(upage) then Some(Mapping(kpage, writable)) else Mapped(old(dir), old(tables), w))
    {
      hide Inv, PdNo, PtNo, IsUser, Addressed, PageOf, PgOfs, PgRoundDown, Present, Writable, MappedAt, PteCreateUser, At, Put, Has, TableAt, PutTable;
      var pt := LookupPage(upage, true, page);
      ghost var tables0 := tables;
      ok := pt.Some?;
      if ok {
        EntryRoundTrip(kpage, writable);
        var e := PteCreateUser(kpage, writable);
        EntryWritten(dir, tables, PdNo(upage), PtNo(upage), e);
        tables := PutTable(tables, pt.value, Put(TableAt(tables, pt.value), PtNo(upage), e));
        assert Meaning(e) == Some(Mapping(kpage, writable));
      }
      forall w: Word | IsUser(w)
        ensures Mapped(dir, tables, w) == if ok && PgRoundDown(w) == PgRoundDown(upage) then Some(Mapping(kpage, writable)) else Mapped(old(dir), old(tables), w)
      {
        UserHalf(w);
        SamePage(w, upage);
      }
    }

    /** pagedir_get_page: the frame plus the offset, for any address on a mapped page. */
    method GetPage(uaddr: Word) returns (r: Option<Word>)
      requires Valid() && IsUser(uaddr)
      modifies this
      ensures dir == old(dir) && tables == old(tables)
      ensures r == match Mapped(dir, tables, uaddr) case Some(m) => Some(WithOffset(m.frame, uaddr)) case None => None
    {
      hide PdNo, PtNo, IsUser, Addressed, PageOf, PgOfs, Present, Writable, At, Has, TableAt, WithOffset;
      UserHalf(uaddr);
      var pt := LookupPage(uaddr, false, None);
      if pt.Some? {
        var pte := At(TableAt(tables, pt.value), PtNo(uaddr));
        assert Addressed(pte);
        if Present(pte) {
          return Some(WithOffset(PageOf(pte), uaddr));
        }
      }
      return None;
    }

    /** pagedir_clear_page: the page is no longer mapped; nothing else changes. */
    method ClearPage(upage: Word)
      requires Valid() && PgOfs(upage) == 0 && IsUser(upage)
      modifies this
      ensures Valid() && dir == old(dir)
      ensures forall w: Word | IsUser(w) ::
        (Mapped(dir, tables, w) == if PgRoundDown(w) == PgRoundDown(upage) then None else Mapped(old(dir), old(tables), w))
    {
      hide PdNo, PtNo, IsUser, Addressed, PageOf, PgOfs, PgRoundDown, Present, Writable, Absent, At, Put, Has, TableAt, PutTable;
      UserHalf(upage);
      var pt := LookupPage(upage, false, None);
      if pt.Some? {
        var e := At(TableAt(tables, pt.value), PtNo(upage));
        assert Addressed(e);
        if Present(e) {
          AbsentEntry(e);
          EntryWritten(dir, tables, PdNo(upage), PtNo(upage), Absent(e));
          tables := PutTable(tables, pt.value, Put(TableAt(tables, pt.value), PtNo(upage), Absent(e)));
        }
      }
      hide Inv;
      forall w: Word | IsUser(w)
        ensures Mapped(dir, tables, w) == if PgRoundDown(w) == PgRoundDown(upage) then None else Mapped(old(dir), old(tables), w)
      {
        UserHalf(w);
        SamePage(w, upage);
      }
    }
  }
}
