/**
 What the file system keeps about sectors, inodes, directory slots and openers, as one
 value, with the changes its operations make to it.
 */
module Disk {
  import Bitmap
  import opened Inode

  /** A directory entry in the root directory. */
  datatype Slot = Slot(inUse: bool, name: string, sector: nat)

  /** An inode in memory. */
  datatype Open = Open(cnt: nat, removed: bool, denyCnt: nat, data: Extent)

  /** Something that holds an inode open; a file may have denied writes. */
  datatype Ref = Ref(sector: nat, deny: bool)

  /**
   The whole state. On the device: the free map, the inode written last to each sector and
   the root directory. In memory: open inodes by sector and what holds them open. For the
   proofs: the inodes that are never removed, the slot of each linked inode, the inode each
   sector belongs to, and the marked sectors that belong to none.
   */
  datatype Fs = Fs(bits: seq<bool>, heads: map<nat, Extent>, slots: seq<Slot>, open: map<nat, Open>, refs: map<nat, Ref>,
                   roots: set<nat>, links: map<nat, nat>, owner: map<nat, nat>, spare: set<nat>)

  /** The n sectors from start on. */
  function Range(start: nat, n: nat): (r: set<nat>)
    ensures forall k :: k in r <==> start <= k < start + n
  {
    if n == 0 then {} else Range(start, n - 1) + {start + n - 1}
  }

  /** The data sectors of an inode. */
  function Data(e: Extent): set<nat> {
    Range(e.start, e.Sectors())
  }

  /** All sectors of an inode: its own and its data. */
  function Foot(i: nat, e: Extent): set<nat> {
    {i} + Data(e)
  }

  /** Inodes that exist: permanent, linked or open. */
  function Known(fs: Fs): set<nat> {
    fs.roots + fs.links.Keys + fs.open.Keys
  }

  predicate ValidName(name: string) { 1 <= |name| <= 14 }

  /** What holds inode i open. */
  function Holders(refs: map<nat, Ref>, i: nat): set<nat> {
    set r | r in refs && refs[r].sector == i
  }

  function Deniers(refs: map<nat, Ref>, i: nat): set<nat> {
    set r | r in refs && refs[r].sector == i && refs[r].deny
  }

  /* ----- the invariant ----- */

  // The sectors of inode i lie on the device and belong to i alone.
  ghost predicate InodeInv(fs: Fs, i: nat) {
    && i in fs.heads && i < |fs.bits| && fs.heads[i].start + fs.heads[i].Sectors() <= |fs.bits| && i !in Data(fs.heads[i])
    && forall s | s in Foot(i, fs.heads[i]) :: s in fs.owner && fs.owner[s] == i
  }

  ghost predicate OwnerInv(fs: Fs) {
    && (forall i | i in Known(fs) :: InodeInv(fs, i))
    && (forall s | s in fs.owner :: fs.owner[s] in Known(fs) && s in Foot(fs.owner[s], fs.heads[fs.owner[s]]))
  }

  // Marked are the sectors that belong to an inode, and those that are spare.
  ghost predicate BitsInv(fs: Fs) {
    && (forall s | 0 <= s < |fs.bits| :: fs.bits[s] <==> s in fs.spare || s in fs.owner)
    && (forall s | s in fs.spare :: s < |fs.bits| && s !in fs.owner)
  }

  // Every inode is in one slot at most.
  ghost predicate SlotInv(fs: Fs) {
    && (forall k | 0 <= k < |fs.slots| && fs.slots[k].inUse ::
          ValidName(fs.slots[k].name) && fs.slots[k].sector in fs.links && fs.links[fs.slots[k].sector] == k)
    && (forall i | i in fs.links :: fs.links[i] < |fs.slots| && fs.slots[fs.links[i]].inUse && fs.slots[fs.links[i]].sector == i)
    && fs.links.Keys !! fs.roots
  }

  /** Every name is in one slot at most. */
  ghost predicate UniqueNames(slots: seq<Slot>) {
    forall j, k | 0 <= j < k < |slots| && slots[j].inUse && slots[k].inUse :: slots[j].name != slots[k].name
  }

  // An open inode has its holders counted; a removed one is linked no more.
  ghost predicate OpenedInv(fs: Fs, i: nat)
    requires i in fs.open
  {
    var o := fs.open[i];
    && i in fs.heads && o.data == fs.heads[i]
    && o.cnt == |Holders(fs.refs, i)| >= 1 && o.denyCnt == |Deniers(fs.refs, i)|
    && (o.removed ==> i !in fs.links && i !in fs.roots)
  }

  ghost predicate OpenInv(fs: Fs) {
    && (forall i | i in fs.open :: OpenedInv(fs, i))
    && (forall r | r in fs.refs :: fs.refs[r].sector in fs.open)
  }

  ghost predicate Inv(fs: Fs) {
    OwnerInv(fs) && BitsInv(fs) && SlotInv(fs) && OpenInv(fs)
  }

  /* ----- what the invariant says ----- */

  /** The sectors of distinct inodes are disjoint, and all of them are marked. */
  lemma InodesDisjoint(fs: Fs, i: nat, j: nat)
    requires Inv(fs) && i in Known(fs) && j in Known(fs) && i != j
    ensures i in fs.heads && j in fs.heads && Foot(i, fs.heads[i]) !! Foot(j, fs.heads[j])
    ensures forall s | s in Foot(i, fs.heads[i]) :: s < |fs.bits| && fs.bits[s]
  {
    assert InodeInv(fs, i) && InodeInv(fs, j);
  }

  /** No directory entry names a removed inode, or one whose sectors have been released. */
  lemma EntriesAreLive(fs: Fs, k: nat)
    requires Inv(fs) && k < |fs.slots| && fs.slots[k].inUse
    ensures var i := fs.slots[k].sector;
      && i in Known(fs) && i in fs.heads && (i in fs.open ==> !fs.open[i].removed)
      && forall s | s in Foot(i, fs.heads[i]) :: s < |fs.bits| && fs.bits[s]
  {
    var i := fs.slots[k].sector;
    assert InodeInv(fs, i);
    assert i in fs.open ==> OpenedInv(fs, i);
  }

  /** Writes are never denied more often than the inode is open. */
  lemma DenialsBounded(fs: Fs, i: nat)
    requires Inv(fs) && i in fs.open
    ensures fs.open[i].denyCnt <= fs.open[i].cnt
  {
    assert OpenedInv(fs, i);
    CardLe(Deniers(fs.refs, i), Holders(fs.refs, i));
  }

  lemma CardLe(a: set<nat>, b: set<nat>)
    requires a <= b
    ensures |a| <= |b|
  {
    assert b == a + (b - a);
  }

  /** Every marked sector belongs to exactly one inode, unless it is spare. */
  lemma MarkedSectors(fs: Fs, s: nat)
    requires Inv(fs) && s < |fs.bits|
    ensures fs.bits[s] && s !in fs.spare <==> exists i :: i in Known(fs) && i in fs.heads && s in Foot(i, fs.heads[i])
  {
    if fs.bits[s] && s !in fs.spare {
      assert fs.owner[s] in Known(fs);
    }
    forall i | i in Known(fs) && i in fs.heads && s in Foot(i, fs.heads[i])
      ensures fs.bits[s] && s !in fs.spare
    {
      assert InodeInv(fs, i);
    }
  }

  /* ----- the changes ----- */

  /** A run of n clear bits is marked; the sectors belong to nobody yet. */
  function Alloc(fs: Fs, start: nat, n: nat): Fs
    requires start + n <= |fs.bits|
  {
    fs.(bits := Bitmap.Filled(fs.bits, start, n, true), spare := fs.spare + Range(start, n))
  }

  /** A spare run is cleared. */
  function Unalloc(fs: Fs, start: nat, n: nat): Fs
    requires start + n <= |fs.bits|
  {
    fs.(bits := Bitmap.Filled(fs.bits, start, n, false), spare := fs.spare - Range(start, n))
  }

  // The sectors of i leave the spare ones.
  function Owned(fs: Fs, i: nat): Fs
    requires i in fs.heads
  {
    var foot := Foot(i, fs.heads[i]);
    fs.(owner := fs.owner + (map s | s in foot :: i), spare := fs.spare - foot)
  }

  /** An inode made of spare sectors gets the name in slot k. */
  function Link(fs: Fs, k: nat, name: string, i: nat): Fs
    requires i in fs.heads && k < |fs.slots|
  {
    Owned(fs, i).(slots := fs.slots[k := Slot(true, name, i)], links := fs.links[i := k])
  }

  /** An inode made of spare sectors becomes permanent. */
  function Adopt(fs: Fs, i: nat): Fs
    requires i in fs.heads
  {
    Owned(fs, i).(roots := fs.roots + {i})
  }

  /** Slot k is cleared and its inode, which is open, marked as removed. */
  function Unlink(fs: Fs, k: nat): Fs
    requires k < |fs.slots| && fs.slots[k].sector in fs.open
  {
    var i := fs.slots[k].sector;
    var o := fs.open[i];
    fs.(slots := fs.slots[k := Slot(false, fs.slots[k].name, i)], links := fs.links - {i}, open := fs.open[i := Open(o.cnt, true, o.denyCnt, o.data)])
  }

  // No entry leads to inode i any more.
  predicate Orphan(fs: Fs, i: nat) { i !in fs.links && i !in fs.roots }

  // The sectors of i stay marked and belong to nobody.
  function Abandoned(fs: Fs, i: nat, e: Extent): Fs {
    fs.(owner := fs.owner - Foot(i, e), spare := fs.spare + Foot(i, e))
  }

  /** Slot k is free for another entry: the inode it named is not removed, but has no entry any more. */
  function Dropped(fs: Fs, k: nat): (d: Fs)
    requires k < |fs.slots|
    ensures d.heads == fs.heads && |d.slots| == |fs.slots| && !d.slots[k].inUse
  {
    if !fs.slots[k].inUse then fs else
      var i := fs.slots[k].sector;
      var f := fs.(slots := fs.slots[k := Slot(false, fs.slots[k].name, i)], links := fs.links - {i});
      if i in fs.open || i !in fs.heads then f else Abandoned(f, i, fs.heads[i])
  }

  /** One more holder of inode i. */
  function Opened(fs: Fs, i: nat, r: nat): Fs
    requires i in fs.open || i in fs.heads
  {
    fs.(refs := fs.refs[r := Ref(i, false)],
        open := fs.open[i := if i in fs.open then Open(fs.open[i].cnt + 1, fs.open[i].removed, fs.open[i].denyCnt, fs.open[i].data)
                             else Open(1, false, 0, fs.heads[i])])
  }

  /** One holder less; the last one takes the sectors of a removed inode along. Those of an orphan are lost. */
  function Closed(fs: Fs, r: nat): Fs
    requires r in fs.refs && fs.refs[r].sector in fs.open
  {
    var i := fs.refs[r].sector;
    var o := fs.open[i];
    var refs := fs.refs - {r};
    if o.cnt > 1 then fs.(refs := refs, open := fs.open[i := Open(o.cnt - 1, o.removed, o.denyCnt, o.data)])
    else if !o.removed && Orphan(fs, i) then Abandoned(fs.(refs := refs, open := fs.open - {i}), i, o.data)
    else if !o.removed || i >= |fs.bits| || o.data.start + o.data.Sectors() > |fs.bits| then fs.(refs := refs, open := fs.open - {i})
    else fs.(refs := refs, open := fs.open - {i}, owner := fs.owner - Foot(i, o.data),
             bits := Bitmap.Filled(Bitmap.Filled(fs.bits, i, 1, false), o.data.start, o.data.Sectors(), false))
  }

  /** Holder r denies writes, or allows them again. */
  function Denied(fs: Fs, r: nat): Fs
    requires r in fs.refs && fs.refs[r].sector in fs.open
  {
    var i := fs.refs[r].sector;
    var o := fs.open[i];
    fs.(refs := fs.refs[r := Ref(i, true)], open := fs.open[i := Open(o.cnt, o.removed, o.denyCnt + 1, o.data)])
  }

  function Allowed(fs: Fs, r: nat): Fs
    requires r in fs.refs && fs.refs[r].sector in fs.open && fs.open[fs.refs[r].sector].denyCnt > 0
  {
    var i := fs.refs[r].sector;
    var o := fs.open[i];
    fs.(refs := fs.refs[r := Ref(i, false)], open := fs.open[i := Open(o.cnt, o.removed, o.denyCnt - 1, o.data)])
  }

  /* ----- ... keep the invariant ----- */

  // Parts of the invariant that a change does not concern.
  lemma OwnersSame(fs: Fs, f: Fs)
    requires OwnerInv(fs) && Known(f) == Known(fs) && f.owner == fs.owner && |f.bits| == |fs.bits|
    requires forall i | i in Known(fs) :: i in fs.heads ==> i in f.heads && f.heads[i] == fs.heads[i]
    ensures OwnerInv(f)
  {
    hide Known, Foot, Data;
    forall i | i in Known(f) ensures InodeInv(f, i) { assert InodeInv(fs, i); }
    forall s | s in f.owner ensures f.owner[s] in Known(f) && s in Foot(f.owner[s], f.heads[f.owner[s]]) { assert InodeInv(fs, fs.owner[s]); }
  }

  lemma BitsSame(fs: Fs, f: Fs)
    requires BitsInv(fs) && f.bits == fs.bits && f.spare == fs.spare && f.owner == fs.owner
    ensures BitsInv(f)
  {
  }

  lemma SlotsSame(fs: Fs, f: Fs)
    requires SlotInv(fs) && f.slots == fs.slots && f.links == fs.links && f.roots == fs.roots
    ensures SlotInv(f)
  {
  }

  lemma OpensSame(fs: Fs, f: Fs)
    requires OpenInv(fs) && f.open == fs.open && f.refs == fs.refs
    requires forall i | i in fs.open :: (i in fs.heads ==> i in f.heads && f.heads[i] == fs.heads[i])
    requires forall i | i in fs.open :: (i in f.links || i in f.roots ==> i in fs.links || i in fs.roots)
    ensures OpenInv(f)
  {
    hide Holders, Deniers;
    forall i | i in f.open ensures OpenedInv(f, i) { assert OpenedInv(fs, i); }
  }

  // What the parts of the invariant say about one inode.
  lemma KnownInode(fs: Fs, i: nat)
    requires OwnerInv(fs) && i in Known(fs)
    ensures InodeInv(fs, i)
  {
    hide Known, InodeInv;
  }

  lemma OpenInode(fs: Fs, i: nat)
    requires OpenInv(fs) && i in fs.open
    ensures OpenedInv(fs, i)
  {
    hide OpenedInv;
  }

  lemma AllocKeeps(fs: Fs, start: nat, n: nat)
    requires Inv(fs) && Bitmap.AllAre(fs.bits, start, n, false)
    ensures Inv(Alloc(fs, start, n))
  {
    hide OwnerInv, BitsInv, SlotInv, OpenInv, Range;
    var f := Alloc(fs, start, n);
    assert Known(f) == Known(fs);
    OwnersSame(fs, f);
    AllocBits(fs, start, n);
    SlotsSame(fs, f);
    OpensSame(fs, f);
  }

  lemma AllocBits(fs: Fs, start: nat, n: nat)
    requires BitsInv(fs) && Bitmap.AllAre(fs.bits, start, n, false)
    ensures BitsInv(Alloc(fs, start, n)) && Range(start, n) !! fs.spare
  {
  }

  lemma UnallocKeeps(fs: Fs, start: nat, n: nat)
    requires Inv(fs) && start + n <= |fs.bits| && Range(start, n) <= fs.spare
    ensures Inv(Unalloc(fs, start, n))
  {
    hide OwnerInv, BitsInv, SlotInv, OpenInv, Range;
    var f := Unalloc(fs, start, n);
    assert Known(f) == Known(fs);
    OwnersSame(fs, f);
    UnallocBits(fs, start, n);
    SlotsSame(fs, f);
    OpensSame(fs, f);
  }

  lemma UnallocBits(fs: Fs, start: nat, n: nat)
    requires BitsInv(fs) && start + n <= |fs.bits| && Range(start, n) <= fs.spare
    ensures BitsInv(Unalloc(fs, start, n)) && Bitmap.AllAre(fs.bits, start, n, true)
  {
    forall k | start <= k < start + n
      ensures fs.bits[k]
    {
      assert k in Range(start, n);
    }
  }

  lemma SpareIsUnknown(fs: Fs, i: nat)
    requires OwnerInv(fs) && BitsInv(fs) && i in fs.spare
    ensures i !in Known(fs)
  {
    forall j | j in Known(fs)
      ensures j !in fs.spare
    {
      KnownInode(fs, j);
      hide OwnerInv, Known;
      assert j in Foot(j, fs.heads[j]);
    }
  }

  /** Writing an inode to a spare sector. */
  lemma WriteHeadKeeps(fs: Fs, i: nat, e: Extent)
    requires Inv(fs) && i in fs.spare
    ensures Inv(fs.(heads := fs.heads[i := e]))
  {
    hide OwnerInv, SlotInv, OpenInv, BitsInv;
    var f := fs.(heads := fs.heads[i := e]);
    SpareIsUnknown(fs, i);
    assert Known(f) == Known(fs);
    OwnersSame(fs, f);
    BitsSame(fs, f);
    SlotsSame(fs, f);
    OpensSame(fs, f);
  }

  // An inode whose sectors are all spare.
  ghost predicate Ready(fs: Fs, i: nat) {
    && i in fs.heads && i < |fs.bits| && fs.heads[i].start + fs.heads[i].Sectors() <= |fs.bits| && i !in Data(fs.heads[i])
    && Foot(i, fs.heads[i]) <= fs.spare
  }

  lemma ReadyIsNew(fs: Fs, i: nat)
    requires OwnerInv(fs) && BitsInv(fs) && Ready(fs, i)
    ensures i !in Known(fs) && i in fs.heads
  {
    hide OwnerInv, BitsInv, Known;
    assert i in Foot(i, fs.heads[i]);
    SpareIsUnknown(fs, i);
  }

  // The bookkeeping of sectors when i becomes known.
  lemma OwnedKeeps(fs: Fs, f: Fs, i: nat)
    requires OwnerInv(fs) && BitsInv(fs) && Ready(fs, i) && Known(f) == Known(fs) + {i}
    requires f.heads == fs.heads && f.bits == fs.bits && f.owner == Owned(fs, i).owner && f.spare == Owned(fs, i).spare
    ensures OwnerInv(f) && BitsInv(f)
  {
    hide Known, Data, Range;
    ghost var foot := Foot(i, fs.heads[i]);
    forall j | j in Known(f)
      ensures InodeInv(f, j)
    {
      if j != i {
        KnownInode(fs, j);
      }
    }
    hide Foot;
  }

  lemma LinkKeeps(fs: Fs, k: nat, name: string, i: nat)
    requires Inv(fs) && Ready(fs, i) && k < |fs.slots| && !fs.slots[k].inUse && ValidName(name)
    ensures Inv(Link(fs, k, name, i))
  {
    hide OwnerInv, BitsInv, SlotInv, OpenInv, Foot, Data, Range, Ready;
    ReadyIsNew(fs, i);
    var f := Link(fs, k, name, i);
    assert Known(f) == Known(fs) + {i};
    OwnedKeeps(fs, f, i);
    OpensSame(fs, f);
    LinkSlots(fs, f, k, name, i);
  }

  lemma LinkSlots(fs: Fs, f: Fs, k: nat, name: string, i: nat)
    requires SlotInv(fs) && i !in fs.links && i !in fs.roots && k < |fs.slots| && !fs.slots[k].inUse && ValidName(name)
    requires f.slots == fs.slots[k := Slot(true, name, i)] && f.links == fs.links[i := k] && f.roots == fs.roots
    ensures SlotInv(f)
  {
    hide ValidName;
  }

  lemma AdoptKeeps(fs: Fs, i: nat)
    requires Inv(fs) && Ready(fs, i)
    ensures Inv(Adopt(fs, i))
  {
    hide OwnerInv, BitsInv, OpenInv, Foot, Data, Range, Ready, ValidName;
    ReadyIsNew(fs, i);
    var f := Adopt(fs, i);
    assert Known(f) == Known(fs) + {i};
    OwnedKeeps(fs, f, i);
    OpensSame(fs, f);
  }

  lemma UnlinkKeeps(fs: Fs, k: nat)
    requires Inv(fs) && k < |fs.slots| && fs.slots[k].inUse && fs.slots[k].sector in fs.open
    ensures Inv(Unlink(fs, k))
  {
    hide OwnerInv, BitsInv, SlotInv, OpenInv;
    var f := Unlink(fs, k);
    assert Known(f) == Known(fs);
    OwnersSame(fs, f);
    BitsSame(fs, f);
    UnlinkSlots(fs, k);
    UnlinkOpen(fs, k);
  }

  lemma UnlinkSlots(fs: Fs, k: nat)
    requires SlotInv(fs) && k < |fs.slots| && fs.slots[k].inUse && fs.slots[k].sector in fs.open
    ensures SlotInv(Unlink(fs, k)) && fs.slots[k].sector !in fs.roots
  {
    hide ValidName;
  }

  lemma UnlinkOpen(fs: Fs, k: nat)
    requires OpenInv(fs) && k < |fs.slots| && fs.slots[k].sector in fs.open && fs.slots[k].sector !in fs.roots
    ensures OpenInv(Unlink(fs, k))
  {
    hide Holders, Deniers;
    var f := Unlink(fs, k);
    forall j | j in f.open ensures OpenedInv(f, j) { assert OpenedInv(fs, j); }
  }

  lemma OpenedKeeps(fs: Fs, i: nat, r: nat)
    requires Inv(fs) && i in Known(fs) && r !in fs.refs
    ensures i in fs.heads && Inv(Opened(fs, i, r))
  {
    hide OwnerInv, BitsInv, SlotInv, OpenInv;
    KnownInode(fs, i);
    var f := Opened(fs, i, r);
    assert Known(f) == Known(fs);
    OwnersSame(fs, f);
    BitsSame(fs, f);
    SlotsSame(fs, f);
    OpenedOpen(fs, i, r);
  }

  lemma OpenedOpen(fs: Fs, i: nat, r: nat)
    requires OpenInv(fs) && i in Known(fs) && i in fs.heads && r !in fs.refs
    ensures OpenInv(Opened(fs, i, r))
  {
    var f := Opened(fs, i, r);
    forall j | j in f.open ensures OpenedInv(f, j) {
      if j in fs.open { OpenInode(fs, j); } else { NoHolders(fs, j); }
      HoldersMore(fs.refs, r, i, j);
      hide Holders, Deniers, OpenInv;
    }
  }

  lemma NoHolders(fs: Fs, i: nat)
    requires OpenInv(fs) && i !in fs.open
    ensures Holders(fs.refs, i) == {} && Deniers(fs.refs, i) == {}
  {
    hide OpenedInv;
  }

  lemma HoldersMore(refs: map<nat, Ref>, r: nat, i: nat, j: nat)
    requires r !in refs
    ensures |Holders(refs[r := Ref(i, false)], j)| == |Holders(refs, j)| + (if i == j then 1 else 0)
    ensures Deniers(refs[r := Ref(i, false)], j) == Deniers(refs, j)
  {
    assert Holders(refs[r := Ref(i, false)], j) == if i == j then Holders(refs, j) + {r} else Holders(refs, j);
  }

  // Taking one holder away.
  lemma HoldersLess(refs: map<nat, Ref>, r: nat, j: nat)
    requires r in refs && !refs[r].deny
    ensures |Holders(refs - {r}, j)| == |Holders(refs, j)| - (if refs[r].sector == j then 1 else 0)
    ensures Deniers(refs - {r}, j) == Deniers(refs, j)
  {
    assert Holders(refs - {r}, j) == if refs[r].sector == j then Holders(refs, j) - {r} else Holders(refs, j);
  }

  lemma ClosedKeeps(fs: Fs, r: nat)
    requires Inv(fs) && r in fs.refs && !fs.refs[r].deny
    ensures fs.refs[r].sector in fs.open && Inv(Closed(fs, r))
  {
    hide OwnerInv, BitsInv, SlotInv;
    ClosedOpen(fs, r);
    ClosedRefs(fs, r);
    ClosedSectors(fs, r);
    hide OpenedInv;
    SlotsSame(fs, Closed(fs, r));
  }

  lemma ClosedOpen(fs: Fs, r: nat)
    requires OpenInv(fs) && r in fs.refs && !fs.refs[r].deny
    ensures forall j | j in Closed(fs, r).open :: OpenedInv(Closed(fs, r), j)
  {
    var i := fs.refs[r].sector;
    var f := Closed(fs, r);
    OpenInode(fs, i);
    forall j | j in f.open ensures OpenedInv(f, j) {
      OpenInode(fs, j);
      HoldersLess(fs.refs, r, j);
      hide Holders, Deniers, OpenInv, Foot;
    }
  }

  lemma ClosedRefs(fs: Fs, r: nat)
    requires OpenInv(fs) && r in fs.refs && !fs.refs[r].deny
    ensures forall q | q in Closed(fs, r).refs :: Closed(fs, r).refs[q].sector in Closed(fs, r).open
  {
    var i := fs.refs[r].sector;
    hide OpenedInv, Foot;
    forall q | q in fs.refs && q != r && fs.open[i].cnt == 1
      ensures fs.refs[q].sector != i
    {
      HolderCount(fs, i);
      OneHolder(Holders(fs.refs, i), r, q);
    }
  }

  lemma HolderCount(fs: Fs, i: nat)
    requires OpenInv(fs) && i in fs.open
    ensures fs.open[i].cnt == |Holders(fs.refs, i)|
  {
    hide Holders, Deniers;
    OpenInode(fs, i);
  }

  lemma OneHolder(s: set<nat>, r: nat, q: nat)
    requires |s| == 1 && r in s && q != r
    ensures q !in s
  {
    assert |s - {r}| == 0;
    assert q in s ==> q in s - {r};
  }

  lemma ClosedSectors(fs: Fs, r: nat)
    requires Inv(fs) && r in fs.refs && !fs.refs[r].deny
    ensures fs.refs[r].sector in fs.open && OwnerInv(Closed(fs, r)) && BitsInv(Closed(fs, r))
  {
    hide OwnerInv, BitsInv, SlotInv, Holders, Deniers, Foot;
    var i := fs.refs[r].sector;
    assert i in fs.open && OpenedInv(fs, i);
    hide OpenInv;
    var f := Closed(fs, r);
    KnownInode(fs, i);
    if fs.open[i].cnt > 1 || (!fs.open[i].removed && !Orphan(fs, i)) {
      assert Known(f) == Known(fs);
      OwnersSame(fs, f);
      BitsSame(fs, f);
    } else {
      assert Known(f) == Known(fs) - {i};
      OwnersLess(fs, f, i);
      if fs.open[i].removed {
        ReleasedBits(fs.bits, i, fs.heads[i]);
        ReleaseBits(fs, f, i);
      } else {
        AbandonBits(fs, f, i);
      }
    }
  }

  lemma ReleasedBits(bits: seq<bool>, i: nat, e: Extent)
    requires i < |bits| && e.start + e.Sectors() <= |bits|
    ensures var b := Bitmap.Filled(Bitmap.Filled(bits, i, 1, false), e.start, e.Sectors(), false);
      |b| == |bits| && forall s | 0 <= s < |bits| :: b[s] == (bits[s] && s !in Foot(i, e))
  {
  }

  // Inode i is known no more.
  lemma OwnersLess(fs: Fs, f: Fs, i: nat)
    requires OwnerInv(fs) && i in Known(fs) && Known(f) == Known(fs) - {i} && InodeInv(fs, i)
    requires f.heads == fs.heads && f.owner == fs.owner - Foot(i, fs.heads[i]) && |f.bits| == |fs.bits|
    ensures OwnerInv(f)
  {
    hide Known, Foot;
    forall j | j in Known(f)
      ensures InodeInv(f, j)
    {
      KnownInode(fs, j);
      assert forall s | s in Foot(j, fs.heads[j]) :: fs.owner[s] == j;
    }
    forall s | s in f.owner
      ensures f.owner[s] in Known(f) && s in Foot(f.owner[s], f.heads[f.owner[s]])
    {
      assert fs.owner[s] in Known(fs);
    }
  }

  // The sectors of i are marked no more.
  lemma ReleaseBits(fs: Fs, f: Fs, i: nat)
    requires BitsInv(fs) && InodeInv(fs, i) && f.spare == fs.spare && f.owner == fs.owner - Foot(i, fs.heads[i])
    requires |f.bits| == |fs.bits| && forall s | 0 <= s < |fs.bits| :: f.bits[s] == (fs.bits[s] && s !in Foot(i, fs.heads[i]))
    ensures BitsInv(f)
  {
    hide Foot;
  }

  // The sectors of i stay marked.
  lemma AbandonBits(fs: Fs, f: Fs, i: nat)
    requires BitsInv(fs) && InodeInv(fs, i) && f.bits == fs.bits
    requires f.owner == fs.owner - Foot(i, fs.heads[i]) && f.spare == fs.spare + Foot(i, fs.heads[i])
    ensures BitsInv(f)
  {
    hide Data;
    forall s | s in Foot(i, fs.heads[i])
      ensures s in fs.owner && s < |fs.bits|
    {
      InFoot(fs.heads[i], i, s);
    }
  }

  lemma InFoot(e: Extent, i: nat, s: nat)
    requires s in Foot(i, e)
    ensures s == i || e.start <= s < e.start + e.Sectors()
  {
  }

  /** Dropping an entry keeps the invariant. */
  lemma DroppedKeeps(fs: Fs, k: nat)
    requires Inv(fs) && k < |fs.slots|
    ensures Inv(Dropped(fs, k))
  {
    hide OwnerInv, BitsInv, SlotInv, OpenInv, Foot;
    if fs.slots[k].inUse {
      var i, f := fs.slots[k].sector, Dropped(fs, k);
      DroppedSlots(fs, f, k);
      KnownInode(fs, i);
      DroppedOpens(fs, f, k);
      if i in fs.open {
        assert Known(f) == Known(fs);
        OwnersSame(fs, f);
        BitsSame(fs, f);
      } else {
        assert Known(f) == Known(fs) - {i};
        OwnersLess(fs, f, i);
        AbandonBits(fs, f, i);
      }
    }
  }

  lemma DroppedSlots(fs: Fs, f: Fs, k: nat)
    requires SlotInv(fs) && k < |fs.slots| && fs.slots[k].inUse
    requires f.slots == fs.slots[k := Slot(false, fs.slots[k].name, fs.slots[k].sector)] && f.links == fs.links - {fs.slots[k].sector} && f.roots == fs.roots
    ensures SlotInv(f) && fs.slots[k].sector in fs.links && fs.slots[k].sector !in fs.roots
  {
    hide ValidName;
  }

  lemma DroppedOpens(fs: Fs, f: Fs, k: nat)
    requires OpenInv(fs) && k < |fs.slots| && f.open == fs.open && f.refs == fs.refs && f.heads == fs.heads
    requires f.links == fs.links - {fs.slots[k].sector} && f.roots == fs.roots
    ensures OpenInv(f)
  {
    hide OpenInv;
    OpensSame(fs, f);
  }

  // A new inode is still made of spare sectors.
  lemma DroppedReady(fs: Fs, k: nat, i: nat)
    requires k < |fs.slots| && Ready(fs, i)
    ensures Ready(Dropped(fs, k), i)
  {
    hide Foot, Data;
  }

  lemma DeniedKeeps(fs: Fs, r: nat)
    requires Inv(fs) && r in fs.refs && !fs.refs[r].deny
    ensures fs.refs[r].sector in fs.open && Inv(Denied(fs, r))
  {
    hide OwnerInv, BitsInv, SlotInv, OpenInv;
    DeniedOpen(fs, r);
    var f := Denied(fs, r);
    assert Known(f) == Known(fs);
    OwnersSame(fs, f);
    BitsSame(fs, f);
    SlotsSame(fs, f);
  }

  lemma DeniedOpen(fs: Fs, r: nat)
    requires OpenInv(fs) && r in fs.refs && !fs.refs[r].deny
    ensures fs.refs[r].sector in fs.open && OpenInv(Denied(fs, r))
  {
    var f := Denied(fs, r);
    var i := fs.refs[r].sector;
    forall j | j in f.open ensures OpenedInv(f, j) {
      OpenInode(fs, j);
      FlagChanged(fs.refs, r, true, j);
      hide Holders, Deniers, OpenInv;
    }
  }

  // A holder changes its mind about writes.
  lemma FlagChanged(refs: map<nat, Ref>, r: nat, deny: bool, j: nat)
    requires r in refs && refs[r].deny == !deny
    ensures var refs' := refs[r := Ref(refs[r].sector, deny)];
      && Holders(refs', j) == Holders(refs, j)
      && |Deniers(refs', j)| == |Deniers(refs, j)| + (if refs[r].sector != j then 0 else if deny then 1 else -1)
  {
    var refs' := refs[r := Ref(refs[r].sector, deny)];
    assert Holders(refs', j) == Holders(refs, j);
    assert Deniers(refs', j) == if refs[r].sector != j then Deniers(refs, j) else if deny then Deniers(refs, j) + {r} else Deniers(refs, j) - {r};
  }

  lemma AllowedKeeps(fs: Fs, r: nat)
    requires Inv(fs) && r in fs.refs && fs.refs[r].deny
    ensures fs.refs[r].sector in fs.open && fs.open[fs.refs[r].sector].denyCnt > 0 && Inv(Allowed(fs, r))
  {
    hide OwnerInv, BitsInv, SlotInv, OpenInv;
    AllowedOpen(fs, r);
    var f := Allowed(fs, r);
    assert Known(f) == Known(fs);
    OwnersSame(fs, f);
    BitsSame(fs, f);
    SlotsSame(fs, f);
  }

  lemma AllowedOpen(fs: Fs, r: nat)
    requires OpenInv(fs) && r in fs.refs && fs.refs[r].deny
    ensures fs.refs[r].sector in fs.open && fs.open[fs.refs[r].sector].denyCnt > 0 && OpenInv(Allowed(fs, r))
  {
    var i := fs.refs[r].sector;
    OpenInode(fs, i);
    assert r in Deniers(fs.refs, i);
    var f := Allowed(fs, r);
    forall j | j in f.open ensures OpenedInv(f, j) {
      OpenInode(fs, j);
      FlagChanged(fs.refs, r, false, j);
      hide Holders, Deniers, OpenInv;
    }
  }

  /** The last holder of a removed inode releases exactly its sectors, which were all marked; nothing else changes. */
  lemma ReleasedAtLastClose(fs: Fs, r: nat)
    requires Inv(fs) && r in fs.refs && !fs.refs[r].deny
    ensures fs.refs[r].sector in fs.open
    ensures var i := fs.refs[r].sector;
      var f, o := Closed(fs, r), fs.open[i];
      && (o.cnt == 1 && o.removed ==>
            i !in Known(f) && Bitmap.AllAre(fs.bits, i, 1, true) && Bitmap.AllAre(fs.bits, o.data.start, o.data.Sectors(), true)
            && |f.bits| == |fs.bits| && forall s | 0 <= s < |fs.bits| :: f.bits[s] == (fs.bits[s] && s !in Foot(i, o.data)))
      && (!(o.cnt == 1 && o.removed) ==> f.bits == fs.bits && Known(f) == if o.cnt == 1 && Orphan(fs, i) then Known(fs) - {i} else Known(fs))
  {
    hide OwnerInv, BitsInv, SlotInv, Holders, Deniers, Foot;
    var i := fs.refs[r].sector;
    assert i in fs.open && OpenedInv(fs, i);
    hide OpenInv;
    KnownInode(fs, i);
    FootMarked(fs, i);
    ReleasedBits(fs.bits, i, fs.heads[i]);
  }

  lemma FootMarked(fs: Fs, i: nat)
    requires BitsInv(fs) && InodeInv(fs, i)
    ensures Bitmap.AllAre(fs.bits, i, 1, true) && Bitmap.AllAre(fs.bits, fs.heads[i].start, fs.heads[i].Sectors(), true)
  {
    forall s | fs.heads[i].start <= s < fs.heads[i].start + fs.heads[i].Sectors()
      ensures fs.bits[s]
    {
      assert s in Foot(i, fs.heads[i]);
    }
    assert i in Foot(i, fs.heads[i]);
  }
}
