/**
 The file system operations: free map, inodes, the root directory, files. Whether memory
 can be had and whether the free map can be written back is for the environment to say.
 */
module FileSys {
  import Bitmap
  import opened Inode
  import opened Disk

  /** Memory for the directory: how many reads of a search find some before one does not, and whether the write of an entry does. */
  datatype DirMemory = DirMemory(lookup: nat, search: nat, write: bool)

  /** What the environment grants a create: the directory, the two free map writes, the inode buffer, directory accesses. */
  datatype Grants = Grants(dir: bool, sectorWrite: bool, inode: bool, dataWrite: bool, entries: DirMemory)

  predicate HasName(s: Slot, name: string) { s.inUse && s.name == name }

  // The slot lookup finds with the given number of reads: the first one with the name.
  ghost predicate FoundAt(slots: seq<Slot>, name: string, readable: nat, found: Bitmap.Option<nat>) {
    match found
    case Some(k) => k < |slots| && k < readable && HasName(slots[k], name) && forall j | 0 <= j < k :: !HasName(slots[j], name)
    case None => forall k | 0 <= k < |slots| && k < readable :: !HasName(slots[k], name)
  }

  // The slot where the search for a free slot ends: a free one, the first that could not be read, or the end.
  ghost predicate IsTarget(slots: seq<Slot>, readable: nat, k: nat) {
    && k <= |slots| && k <= readable && (forall j | 0 <= j < k :: slots[j].inUse)
    && (k == |slots| || k == readable || !slots[k].inUse)
  }

  /** When dir_add refuses a name: it is not valid, it is found, no slot is free, or the entry cannot be written. */
  ghost predicate Refused(slots: seq<Slot>, name: string, m: DirMemory) {
    !ValidName(name) || !FoundAt(slots, name, m.lookup, Bitmap.None) || IsTarget(slots, m.search, |slots|) || !m.write
  }

  class System {
    const freeMap: Bitmap.Map
    const device: Device
    var heads: map<nat, Extent>
    var slots: seq<Slot>
    var open: map<nat, Open>
    var refs: map<nat, Ref>
    var nextRef: nat
    var freeMapFile: Bitmap.Option<nat>
    ghost var roots: set<nat>
    ghost var links: map<nat, nat>
    ghost var owner: map<nat, nat>
    ghost var spare: set<nat>

    ghost function View(): Fs
      reads this, freeMap, freeMap.bits
    {
      Fs(freeMap.bits[..], heads, slots, open, refs, roots, links, owner, spare)
    }

    ghost predicate Valid()
      reads this, freeMap, freeMap.bits, device
    {
      Inv(View()) && (forall r | r in refs :: r < nextRef) && |device.sectors| == freeMap.bits.Length
    }

    /** free_map_init on a device of n sectors: only the sectors of the free map's and the root directory's inodes are marked. */
    constructor (n: nat)
      requires n >= 2
      ensures Valid() && fresh(freeMap) && fresh(freeMap.bits) && fresh(device) && freeMap.bits.Length == n
      ensures roots == links.Keys == open.Keys == refs.Keys == {} && slots == [] && spare == {0, 1} && freeMapFile.None?
    {
      freeMap := new Bitmap.Map(n);
      device := new Device(n);
      heads, slots, open, refs, nextRef, freeMapFile := map[], [], map[], map[], 0, Bitmap.None;
      roots, links, owner, spare := {}, map[], map[], {0, 1};
      new;
      freeMap.SetMultiple(0, 1, true);
      freeMap.SetMultiple(1, 1, true);
    }

    /** free_map_allocate. */
    method FreeMapAllocate(cnt: nat, written: bool) returns (sector: Bitmap.Option<nat>)
      modifies freeMap.bits
      ensures sector.Some? ==> Bitmap.FirstGroup(old(freeMap.bits[..]), 0, cnt, false, sector)
      ensures sector.Some? ==> freeMap.bits[..] == Bitmap.Filled(old(freeMap.bits[..]), sector.value, cnt, true)
      ensures sector.None? ==> freeMap.bits[..] == old(freeMap.bits[..])
      ensures sector.None? <==> Bitmap.FirstGroup(old(freeMap.bits[..]), 0, cnt, false, Bitmap.None) || (freeMapFile.Some? && !written)
    {
      ghost var bits := freeMap.bits[..];
      sector := freeMap.ScanAndFlip(cnt);
      if sector.Some? && freeMapFile.Some? && !written {
        freeMap.SetMultiple(sector.value, cnt, false);
        assert freeMap.bits[..] == bits;
        sector := Bitmap.None;
      }
    }

    /** free_map_release, whose assertion holds. */
    method FreeMapRelease(sector: nat, cnt: nat)
      requires Bitmap.AllAre(freeMap.bits[..], sector, cnt, true)
      modifies freeMap.bits
      ensures freeMap.bits[..] == Bitmap.Filled(old(freeMap.bits[..]), sector, cnt, false)
    {
      var anyClear := freeMap.Contains(sector, cnt, false);
      assert !anyClear by {
        assert forall i | sector <= i < sector + cnt :: freeMap.bits[..][i] == freeMap.bits[i];
      }
      freeMap.SetMultiple(sector, cnt, false);
    }

    /**
     inode_create in a sector that belongs to nobody: its data sectors belong to nobody either, and the file
     reads as zeros. The bytes of the inode itself are not looked into.
     */
    method InodeCreate(sector: nat, length: nat, memory: bool, written: bool) returns (ok: bool)
      requires Valid() && sector in spare
      modifies this`heads, this`spare, freeMap.bits, device
      ensures Valid()
      ensures !ok ==> View() == old(View()) && device.sectors == old(device.sectors)
      ensures ok ==> sector in heads && heads[sector].length == length && Ready(View(), sector)
      ensures ok ==> old(spare) !! Data(heads[sector]) && spare == old(spare) + Data(heads[sector])
      ensures ok ==> heads == old(heads)[sector := heads[sector]]
      ensures ok ==> Bitmap.FirstGroup(old(freeMap.bits[..]), 0, (length + 511) / 512, false, Bitmap.Some(heads[sector].start))
      ensures ok ==> heads[sector].Fits(device.sectors) && Flat(device.sectors, heads[sector]) == seq(length, i => 0)
      ensures ok ==> forall k | 0 <= k < |device.sectors| && k !in Foot(sector, heads[sector]) :: device.sectors[k] == old(device.sectors)[k]
      ensures ok <==> memory && !Bitmap.FirstGroup(old(freeMap.bits[..]), 0, (length + 511) / 512, false, Bitmap.None) && (freeMapFile.Some? ==> written)
    {
      hide Inv, Data, Foot, Range;
      if !memory {
        return false;
      }
      ghost var fs := View();
      var sectors := (length + 511) / 512;
      var start := FreeMapAllocate(sectors, written);
      if start.None? {
        return false;
      }
      Allocated(fs, sector, Extent(start.value, length));
      heads := heads[sector := Extent(start.value, length)];
      spare := spare + Data(heads[sector]);
      WriteInode(sector, heads[sector]);
      return true;
    }

    // The writes of inode_create.
    method WriteInode(sector: nat, e: Extent)
      requires sector < |device.sectors| && e.Fits(device.sectors) && sector !in Data(e)
      modifies device
      ensures |device.sectors| == |old(device.sectors)| && Flat(device.sectors, e) == seq(e.length, i => 0)
      ensures forall k | 0 <= k < |device.sectors| && k !in Foot(sector, e) :: device.sectors[k] == old(device.sectors)[k]
    {
      var head: Sector := *;
      device.Write(sector, head);
      for i := 0 to e.Sectors()
        invariant |device.sectors| == |old(device.sectors)|
        invariant forall k | e.start <= k < e.start + i :: device.sectors[k] == Zeros()
        invariant forall k | 0 <= k < |device.sectors| && k !in Foot(sector, e) :: device.sectors[k] == old(device.sectors)[k]
      {
        device.Write(e.start + i, Zeros());
      }
      ZerosFlat(device.sectors, e);
    }

    /** inode_open: the inode that is open already, or a new one. */
    method InodeOpen(sector: nat, memory: bool) returns (ref: Bitmap.Option<nat>)
      requires Valid() && sector in Known(View())
      modifies this`open, this`refs, this`nextRef
      ensures Valid()
      ensures ref.None? <==> !memory && sector !in old(open)
      ensures ref.None? ==> View() == old(View())
      ensures ref.Some? ==> sector in heads && View() == Opened(old(View()), sector, ref.value) && ref.value !in old(refs)
    {
      hide Inv, Known;
      OpenedKeeps(View(), sector, nextRef);
      if sector in open {
        var o := open[sector];
        open := open[sector := Open(o.cnt + 1, o.removed, o.denyCnt, o.data)];
      } else {
        if !memory {
          return Bitmap.None;
        }
        open := open[sector := Open(1, false, 0, heads[sector])];
      }
      refs := refs[nextRef := Ref(sector, false)];
      ref := Bitmap.Some(nextRef);
      nextRef := nextRef + 1;
    }

    /** inode_close by holder r. */
    method InodeClose(r: nat)
      requires Valid() && r in refs && !refs[r].deny
      modifies this`open, this`refs, this`owner, this`spare, freeMap.bits
      ensures Valid() && old(refs[r].sector) in old(open) && View() == Closed(old(View()), r) && old(spare) <= spare
    {
      hide Inv, Known, Foot, Data;
      ghost var fs := View();
      ClosedKeeps(fs, r);
      ReleasedAtLastClose(fs, r);
      CloseFacts(fs, r);
      var i := refs[r].sector;
      var o := open[i];
      refs := refs - {r};
      if o.cnt - 1 == 0 {
        open := open - {i};
        if o.removed {
          assert i < |fs.bits| && o.data.start + o.data.Sectors() <= |fs.bits|;
          FreeMapRelease(i, 1);
          StillMarked(fs, i, o.data);
          FreeMapRelease(o.data.start, o.data.Sectors());
          owner := owner - Foot(i, o.data);
        } else if Orphan(fs, i) {
          owner, spare := owner - Foot(i, o.data), spare + Foot(i, o.data);
        }
      } else {
        open := open[i := Open(o.cnt - 1, o.removed, o.denyCnt, o.data)];
      }
    }
  
    /** file_open: takes over the holder; gives it up when there is no memory for the file. */
    method FileOpen(inode: Bitmap.Option<nat>, memory: bool) returns (file: Bitmap.Option<nat>)
      requires Valid() && (inode.Some? ==> inode.value in refs && !refs[inode.value].deny)
      modifies this`open, this`refs, this`owner, this`spare, freeMap.bits
      ensures Valid() && old(spare) <= spare
      ensures file.Some? ==> file == inode && memory && View() == old(View())
      ensures file.None? ==> inode.None? || !memory
      ensures file.None? && inode.None? ==> View() == old(View())
      ensures file.None? && inode.Some? ==> old(refs[inode.value].sector) in old(open) && View() == Closed(old(View()), inode.value)
    {
      if inode.Some? && memory {
        return inode;
      }
      if inode.Some? {
        InodeClose(inode.value);
      }
      return Bitmap.None;
    }

    /** file_deny_write. */
    method FileDenyWrite(f: nat)
      requires Valid() && f in refs
      modifies this`open, this`refs
      ensures Valid() && f in refs && refs[f].deny && old(refs[f].sector) in old(open)
      ensures View() == if old(refs[f].deny) then old(View()) else Denied(old(View()), f)
    {
      assert refs[f].sector in open;
      if !refs[f].deny {
        DeniedKeeps(View(), f);
        var i := refs[f].sector;
        var o := open[i];
        refs := refs[f := Ref(i, true)];
        open := open[i := Open(o.cnt, o.removed, o.denyCnt + 1, o.data)];
        DenialsBounded(View(), i);
        assert open[i].denyCnt <= open[i].cnt;
      }
    }

    /** file_allow_write. */
    method FileAllowWrite(f: nat)
      requires Valid() && f in refs
      modifies this`open, this`refs
      ensures Valid() && f in refs && !refs[f].deny && old(refs[f].sector) in old(open)
      ensures old(refs[f].deny) ==> old(open[refs[f].sector]).denyCnt > 0
      ensures View() == if old(refs[f].deny) then Allowed(old(View()), f) else old(View())
    {
      assert refs[f].sector in open;
      if refs[f].deny {
        AllowedKeeps(View(), f);
        var i := refs[f].sector;
        var o := open[i];
        DenialsBounded(View(), i);
        assert 0 < o.denyCnt <= o.cnt;
        refs := refs[f := Ref(i, false)];
        open := open[i := Open(o.cnt, o.removed, o.denyCnt - 1, o.data)];
      }
    }

    /** file_close: the file's denial goes with it. */
    method FileClose(f: nat)
      requires Valid() && f in refs
      modifies this`open, this`refs, this`owner, this`spare, freeMap.bits
      ensures Valid() && refs == old(refs) - {f} && slots == old(slots) && old(spare) <= spare
      ensures var i := old(refs[f].sector); i in old(open) && (i in open ==> open[i].cnt == old(open[i].cnt) - 1)
      ensures var i := old(refs[f].sector); old(open[i].cnt) == 1 ==> open == old(open) - {i}
      ensures var i := old(refs[f].sector); !(old(open[i].cnt) == 1 && Orphan(old(View()), i)) ==> spare == old(spare)
      ensures var i := old(refs[f].sector);
        old(open[i].cnt) == 1 && old(open[i].removed) ==>
          i !in Known(View()) && forall s | 0 <= s < freeMap.bits.Length :: freeMap.bits[s] == (old(freeMap.bits[..])[s] && s !in Foot(i, old(open[i].data)))
      ensures var i := old(refs[f].sector);
        !(old(open[i].cnt) == 1 && old(open[i].removed)) ==>
          (freeMap.bits[..] == old(freeMap.bits[..])
           && Known(View()) == if old(open[i].cnt) == 1 && Orphan(old(View()), i) then Known(old(View())) - {i} else Known(old(View())))
    {
      hide Inv, Foot, Data;
      FileAllowWrite(f);
      assert Known(View()) == Known(old(View()));
      hide Known;
      ReleasedAtLastClose(View(), f);
      CloseFacts(View(), f);
      InodeClose(f);
    }

    /** lookup, with memory for the given number of reads. */
    method Lookup(name: string, readable: nat) returns (found: Bitmap.Option<nat>)
      ensures FoundAt(slots, name, readable, found)
      ensures found.Some? ==> found.value < |slots| && slots[found.value].inUse
    {
      var k := 0;
      while k < |slots| && k < readable
        invariant 0 <= k <= |slots|
        invariant forall j | 0 <= j < k :: !HasName(slots[j], name)
      {
        if slots[k].inUse && slots[k].name == name {
          return Bitmap.Some(k);
        }
        k := k + 1;
      }
      return Bitmap.None;
    }

    /**
     dir_add of an inode made of spare sectors. A read that finds no memory ends a search like the end of the
     directory does: then a name that is taken may be added again, and the entry of another file overwritten.
     */
    method DirAdd(name: string, inodeSector: nat, m: DirMemory) returns (ok: bool)
      requires Valid() && Ready(View(), inodeSector)
      modifies this`slots, this`links, this`owner, this`spare
      ensures Valid()
      ensures ok <==> !Refused(old(slots), name, m)
      ensures ok ==> inodeSector in heads
      ensures ok ==> exists k: nat :: IsTarget(old(slots), m.search, k) && k < |old(slots)| && View() == Link(Dropped(old(View()), k), k, name, inodeSector)
      ensures !ok ==> View() == old(View())
    {
      hide Inv, Foot, Data;
      if name == "" || |name| > 14 {
        return false;
      }
      var taken := Lookup(name, m.lookup);
      if taken.Some? {
        return false;
      }
      var k := 0;
      while k < |slots| && k < m.search
        invariant 0 <= k <= |slots| && k <= m.search
        invariant forall j | 0 <= j < k :: slots[j].inUse
      {
        if !slots[k].inUse {
          break;
        }
        k := k + 1;
      }
      assert IsTarget(slots, m.search, k);
      if k == |slots| || !m.write {
        // The entry would go behind the end of the directory, or there is no memory to write it.
        return false;
      }
      OverwriteSlot(k, name, inodeSector);
      return true;
    }

    // Writes the entry of the new inode.
    method OverwriteSlot(k: nat, name: string, i: nat)
      requires Valid() && Ready(View(), i) && k < |slots| && ValidName(name)
      modifies this`slots, this`links, this`owner, this`spare
      ensures Valid() && i in heads && View() == Link(Dropped(old(View()), k), k, name, i)
    {
      hide Inv, Foot, Data, Ready, Link, Dropped;
      ghost var fs := View();
      ghost var g := Dropped(fs, k);
      DroppedKeeps(fs, k);
      DroppedReady(fs, k, i);
      LinkKeeps(g, k, name, i);
      NewInode(fs, i);
      LinkedOver(fs, k, name, i);
      LinkFrame(fs, k, name, i);
      ghost var f := Link(g, k, name, i);
      slots := slots[k := Slot(true, name, i)];
      links, owner, spare := f.links, f.owner, f.spare;
      assert View() == f;
    }

    /** dir_open_root. */
    method DirOpenRoot(memory: bool) returns (dir: Bitmap.Option<nat>)
      requires Valid() && 1 in roots
      modifies this`open, this`refs, this`nextRef, this`owner, this`spare, freeMap.bits
      ensures Valid() && (dir.Some? <==> memory) && old(spare) <= spare
      ensures dir.Some? ==> 1 in heads && dir.value !in old(refs) && View() == Opened(old(View()), 1, dir.value)
      ensures dir.None? ==> View() == old(View())
    {
      hide Inv, OpenedInv;
      ghost var fs := View();
      RootFacts(fs, 1);
      var inode := InodeOpen(1, memory);
      ghost var g := View();
      if inode.Some? {
        CloseDir(fs, g, inode.value);
      }
      dir := FileOpen(inode, memory);
      if inode.Some? && dir.None? {
        assert g.refs - {inode.value} == fs.refs;
        assert 1 in fs.open && g.open[1 := fs.open[1]] == fs.open;
      }
    }

    // dir_close of the root directory, opened when the state was fs.
    method DirClose(dir: nat, ghost fs: Fs)
      requires Valid() && Inv(fs) && 1 in roots && 1 in fs.roots && 1 in fs.heads && dir !in fs.refs
      requires dir in refs && refs[dir] == Ref(1, false) && 1 in open && open[1] == Opened(fs, 1, dir).open[1]
      modifies this`open, this`refs, this`owner, this`spare, freeMap.bits
      ensures Valid() && old(spare) <= spare
      ensures View() == old(View()).(refs := old(refs) - {dir}, open := if 1 in fs.open then old(open)[1 := fs.open[1]] else old(open) - {1})
    {
      hide Inv;
      CloseDir(fs, View(), dir);
      InodeClose(dir);
    }

    // free_map_allocate for one sector, which then belongs to nobody.
    method ClaimSector(written: bool) returns (sector: Bitmap.Option<nat>)
      requires Valid() && 0 in roots
      modifies this`spare, freeMap.bits
      ensures Valid()
      ensures sector.None? ==> View() == old(View())
      ensures sector.None? <==> Bitmap.FirstGroup(old(freeMap.bits[..]), 0, 1, false, Bitmap.None) || (freeMapFile.Some? && !written)
      ensures sector.Some? ==> Bitmap.FirstGroup(old(freeMap.bits[..]), 0, 1, false, sector) && sector.value < freeMap.bits.Length
      ensures sector.Some? ==> !old(freeMap.bits[..])[sector.value] && sector.value != 0 && sector.value !in old(spare)
      ensures sector.Some? ==> freeMap.bits[..] == old(freeMap.bits[..])[sector.value := true] && spare == old(spare) + {sector.value}
    {
      hide Inv, Bitmap.FirstGroup;
      ghost var fs := View();
      sector := FreeMapAllocate(1, written);
      if sector.Some? {
        SectorAllocated(fs, sector.value);
        spare := spare + {sector.value};
        assert View() == Alloc(fs, sector.value, 1);
      }
    }

    // free_map_release for one sector that belongs to nobody.
    method GiveBackSector(s: nat)
      requires Valid() && s in spare
      modifies this`spare, freeMap.bits
      ensures Valid() && s < freeMap.bits.Length && freeMap.bits[..] == old(freeMap.bits[..])[s := false] && spare == old(spare) - {s}
    {
      hide Inv;
      ghost var fs := View();
      SpareReleased(fs, s);
      FreeMapRelease(s, 1);
      spare := spare - {s};
      assert View() == Unalloc(fs, s, 1);
    }

    // The part of filesys_create between the opening and the closing of the directory.
    method CreateInDir(name: string, size: nat, grants: Grants) returns (ok: bool, created: bool)
      requires Valid() && 0 in roots
      modifies this`heads, this`slots, this`links, this`owner, this`spare, freeMap.bits, device
      ensures Valid()
      ensures created <==> CanCreate(old(freeMap.bits[..]), size, grants, freeMapFile.Some?)
      ensures ok <==> created && !Refused(old(slots), name, grants.entries)
      ensures ok ==> NewFile(old(View()), View(), old(device.sectors), device.sectors, name, size, grants.entries.search)
      ensures !ok ==> slots == old(slots) && links == old(links) && owner == old(owner)
      ensures !ok && !created ==> freeMap.bits[..] == old(freeMap.bits[..]) && spare == old(spare) && heads == old(heads)
      ensures !ok && created ==> Leaked(old(spare), spare, (size + 511) / 512)
      ensures OnlyFree(old(freeMap.bits[..]), old(device.sectors), device.sectors) && InodesKept(old(View()), View())
    {
      hide Inv, Data, Foot, Bitmap.FirstGroup, Refused, CanCreate, Leaked, NewFile, Flat, OnlyFree, InodesKept, Known;
      ghost var fs := View();
      NoChange(fs, device.sectors);
      ok, created := false, false;
      var inodeSector := 0;
      var sector := ClaimSector(grants.sectorWrite);
      CreateIff(fs.bits, size, grants, freeMapFile.Some?, sector);
      if sector.Some? {
        inodeSector := sector.value;
        ok, created := AddFile(inodeSector, name, size, grants, fs);
      }
      if !ok && inodeSector != 0 {
        ghost var f3 := View();
        GiveBackSector(inodeSector);
        SameInodes(fs, f3, View());
        assert !created ==> fs.bits[inodeSector := true][inodeSector := false] == fs.bits;
      }
    }

    // Creates the inode in a sector claimed since the state was fs, and the entry.
    method AddFile(sector: nat, name: string, size: nat, grants: Grants, ghost fs: Fs) returns (ok: bool, created: bool)
      requires Inv(fs) && Valid() && sector in spare && sector < |fs.bits| == freeMap.bits.Length && sector !in fs.spare && spare == fs.spare + {sector}
      requires View() == fs.(bits := fs.bits[sector := true], spare := spare)
      modifies this`heads, this`slots, this`links, this`owner, this`spare, freeMap.bits, device
      ensures Valid()
      ensures created <==> grants.inode && !Bitmap.FirstGroup(fs.bits[sector := true], 0, (size + 511) / 512, false, Bitmap.None) && (freeMapFile.Some? ==> grants.dataWrite)
      ensures ok <==> created && !Refused(fs.slots, name, grants.entries)
      ensures ok ==> NewFile(fs, View(), old(device.sectors), device.sectors, name, size, grants.entries.search)
      ensures !ok ==> sector in spare && slots == fs.slots && links == fs.links && owner == fs.owner
      ensures !ok && !created ==> freeMap.bits[..] == fs.bits[sector := true] && spare == fs.spare + {sector} && heads == fs.heads
      ensures !ok && created ==> Leaked(fs.spare, spare - {sector}, (size + 511) / 512)
      ensures OnlyFree(fs.bits, old(device.sectors), device.sectors) && InodesKept(fs, View())
    {
      hide Inv, Data, Foot, Bitmap.FirstGroup, Refused, Leaked, NewFile, Ready, Link, Dropped, IsTarget, Flat, Made, OnlyFree, InodesKept, Known;
      ghost var before := device.sectors;
      NoChange(fs, before);
      ok := false;
      created := MakeInode(sector, size, grants.inode, grants.dataWrite, fs);
      ghost var f2 := View();
      if created {
        ok := DirAdd(name, sector, grants.entries);
        if ok {
          FileAdded(fs, f2, View(), before, device.sectors, name, size, sector, grants.entries.search);
        }
      }
      SameInodes(fs, f2, View());
      SameInodes(fs, fs, f2);
    }

    // inode_create in a sector claimed since the state was fs.
    method MakeInode(sector: nat, size: nat, memory: bool, written: bool, ghost fs: Fs) returns (created: bool)
      requires Inv(fs) && Valid() && sector in spare && sector < |fs.bits| == freeMap.bits.Length && sector !in fs.spare && spare == fs.spare + {sector}
      requires View() == fs.(bits := fs.bits[sector := true], spare := spare)
      modifies this`heads, this`spare, freeMap.bits, device
      ensures Valid() && sector in spare
      ensures !created ==> View() == old(View()) && device.sectors == old(device.sectors)
      ensures created ==> Ready(View(), sector) && Made(fs, View(), sector, size, old(device.sectors), device.sectors)
      ensures created ==> OnlyFree(fs.bits, old(device.sectors), device.sectors) && InodesKept(fs, View())
      ensures created ==> Leaked(fs.spare, spare - {sector}, (size + 511) / 512)
      ensures created <==> memory && !Bitmap.FirstGroup(fs.bits[sector := true], 0, (size + 511) / 512, false, Bitmap.None) && (freeMapFile.Some? ==> written)
      ensures links == fs.links && owner == fs.owner && slots == fs.slots && refs == fs.refs && roots == fs.roots && open == fs.open
    {
      hide Inv, Data, Foot, Bitmap.FirstGroup, Ready, Flat, OnlyFree, InodesKept, Leaked;
      ghost var before := device.sectors;
      created := InodeCreate(sector, size, memory, written);
      if created {
        ReadySpare(View(), sector);
        MadeOfFree(fs, View(), sector, size, before, device.sectors);
        DataLeaked(fs, View(), sector, size, before, device.sectors);
      }
    }

    /**
     filesys_create. It fails without a trace, except when the directory refuses the name
     after the inode was created: then the data sectors stay marked for good, since no operation
     on a formatted disk takes a sector off the spare ones. Only sectors that were free are written.
     */
    method Create(name: string, size: nat, grants: Grants) returns (ok: bool, created: bool)
      requires Valid() && {0, 1} <= roots
      modifies this`heads, this`slots, this`links, this`owner, this`spare, this`open, this`refs, this`nextRef, freeMap.bits, device
      ensures Valid() && open == old(open) && refs == old(refs) && old(spare) <= spare
      ensures created <==> grants.dir && CanCreate(old(freeMap.bits[..]), size, grants, freeMapFile.Some?)
      ensures ok <==> created && !Refused(old(slots), name, grants.entries)
      ensures ok ==> NewFile(old(View()), View(), old(device.sectors), device.sectors, name, size, grants.entries.search)
      ensures !ok ==> slots == old(slots) && links == old(links) && owner == old(owner)
      ensures !ok && !created ==> freeMap.bits[..] == old(freeMap.bits[..]) && spare == old(spare) && heads == old(heads)
      ensures !ok && created ==> Leaked(old(spare), spare, (size + 511) / 512)
      ensures OnlyFree(old(freeMap.bits[..]), old(device.sectors), device.sectors) && InodesKept(old(View()), View())
    {
      hide Inv, Refused, CanCreate, Leaked, NewFile, Known, Flat;
      ok, created := false, false;
      ghost var fs, before := View(), device.sectors;
      var dir := DirOpenRoot(grants.dir);
      if dir.Some? {
        ghost var g := View();
        OpenedKnown(fs, 1, dir.value);
        ok, created := CreateInDir(name, size, grants);
        ghost var f := View();
        DirClose(dir.value, fs);
        if ok {
          SameNewFile(fs, g, f, View(), before, device.sectors, name, size, grants.entries.search);
          NewFileSpare(fs, View(), before, device.sectors, name, size, grants.entries.search);
        } else if created {
          LeakedSpare(fs.spare, spare, (size + 511) / 512);
        }
        assert refs == fs.refs && open == fs.open;
      }
    }
  
    /** filesys_open: one more holder of the inode that has the name. */
    method OpenFile(name: string, dirMemory: bool, readable: nat, inodeMemory: bool, fileMemory: bool) returns (file: Bitmap.Option<nat>)
      requires Valid() && {0, 1} <= roots
      modifies this`owner, this`spare, this`open, this`refs, this`nextRef, freeMap.bits
      ensures Valid() && old(spare) <= spare
      ensures file.None? ==> View() == old(View())
      ensures file.Some? ==> exists k: nat :: FoundAt(slots, name, readable, Bitmap.Some(k)) && slots[k].sector in heads
                              && file.value !in old(refs) && View() == Opened(old(View()), slots[k].sector, file.value)
      ensures file.Some? <==> dirMemory && fileMemory && exists k: nat :: FoundAt(slots, name, readable, Bitmap.Some(k)) && (inodeMemory || slots[k].sector in old(open))
    {
      hide Inv, Known;
      ghost var fs := View();
      var dir := DirOpenRoot(dirMemory);
      if dir.None? {
        return Bitmap.None;
      }
      ghost var d := View();
      var inode := Bitmap.None;
      var found := Lookup(name, readable);
      if found.Some? {
        SlotFacts(d, found.value);
        inode := InodeOpen(slots[found.value].sector, inodeMemory);
      }
      DirClose(dir.value, fs);
      OpenResult(fs, d, View(), dir.value, inode, found);
      FoundOnce(fs.slots, name, readable, found);
      ghost var g := View();
      file := FileOpen(inode, fileMemory);
      if inode.Some? && file.None? {
        CloseUndoesOpen(fs, g.refs[inode.value].sector, inode.value);
      }
    }

    /** filesys_remove: the slot is cleared; the inode goes with it unless it is open. */
    method Remove(name: string, dirMemory: bool, readable: nat, inodeMemory: bool, write: bool) returns (ok: bool)
      requires Valid() && {0, 1} <= roots
      modifies this`slots, this`links, this`owner, this`spare, this`open, this`refs, this`nextRef, freeMap.bits
      ensures Valid() && old(spare) <= spare
      ensures !ok ==> View() == old(View())
      ensures ok ==> exists k: nat :: FoundAt(old(slots), name, readable, Bitmap.Some(k)) && CanRemove(old(View()), k) && View() == Removed(old(View()), k)
      ensures ok <==> dirMemory && write && exists k: nat :: FoundAt(old(slots), name, readable, Bitmap.Some(k)) && (inodeMemory || old(slots[k]).sector in old(open))
    {
      hide Inv, Known, Removed, Closed, FoundAt, CanRemove, Unlink;
      ghost var fs := View();
      var dir := DirOpenRoot(dirMemory);
      if dir.None? {
        return false;
      }
      ghost var found, r;
      ok, found, r := RemoveName(name, readable, inodeMemory, write);
      FoundOnce(fs.slots, name, readable, found);
      if found.Some? {
        SlotFacts(fs, found.value);
      }
      if ok {
        RemoveResult(fs, dir.value, found.value, r);
      }
      DirClose(dir.value, fs);
      if !ok {
        assert open == fs.open && refs == fs.refs;
      }
    }

    // dir_remove, by a holder r of the inode found that comes and goes.
    method RemoveName(name: string, readable: nat, inodeMemory: bool, write: bool)
      returns (ok: bool, ghost found: Bitmap.Option<nat>, ghost r: nat)
      requires Valid()
      modifies this`slots, this`links, this`owner, this`spare, this`open, this`refs, this`nextRef, freeMap.bits
      ensures Valid() && old(spare) <= spare
      ensures FoundAt(old(slots), name, readable, found) && (found.Some? ==> found.value < |old(slots)| && old(slots)[found.value].inUse)
      ensures ok <==> write && found.Some? && (inodeMemory || old(slots)[found.value].sector in old(open))
      ensures !ok ==> View() == old(View())
      ensures ok ==> r !in old(refs) && old(slots)[found.value].sector in old(heads)
      ensures ok ==> View() == Closed(Unlink(Opened(old(View()), old(slots)[found.value].sector, r), found.value), r)
    {
      hide Inv, Closed, Unlink, Opened;
      ok, r := false, 0;
      var slot := Lookup(name, readable);
      found := slot;
      if slot.Some? {
        ok, r := RemoveEntry(slot.value, inodeMemory, write);
      }
    }

    // Its work on the entry in slot k.
    method RemoveEntry(k: nat, inodeMemory: bool, write: bool) returns (ok: bool, ghost r: nat)
      requires Valid() && k < |slots| && slots[k].inUse
      modifies this`slots, this`links, this`owner, this`spare, this`open, this`refs, this`nextRef, freeMap.bits
      ensures Valid() && old(spare) <= spare
      ensures ok <==> write && (inodeMemory || old(slots[k]).sector in old(open))
      ensures !ok ==> View() == old(View())
      ensures ok ==> r !in old(refs) && old(slots[k]).sector in old(heads)
      ensures ok ==> View() == Closed(Unlink(Opened(old(View()), old(slots[k]).sector, r), k), r)
    {
      hide Inv, Known, Closed, OpenedInv, InodeInv;
      SlotFacts(View(), k);
      var i := slots[k].sector;
      var inode := InodeOpen(i, inodeMemory);
      if inode.None? {
        return false, 0;
      }
      r := inode.value;
      ghost var g := View();
      if !write {
        CloseUndoesOpen(old(View()), i, r);
        InodeClose(inode.value);
        return false, r;
      }
      UnlinkKeeps(g, k);
      slots := slots[k := Slot(false, slots[k].name, i)];
      open := open[i := Open(open[i].cnt, true, open[i].denyCnt, open[i].data)];
      links := links - {i};
      assert View() == Unlink(g, k);
      InodeClose(inode.value);
      ok := true;
    }

    /**
     do_format: creates the inodes of the free map and of the root directory, which has 16 slots of 20 bytes.
     False stands for stopping the kernel.
     */
    method Format(mapSize: nat, grants: Grants, mapWritten: bool) returns (ok: bool)
      requires Valid() && roots == links.Keys == open.Keys == refs.Keys == {} && spare == {0, 1} && freeMapFile.None? && slots == []
      modifies this, freeMap.bits, device
      ensures Valid()
      ensures ok ==> roots == {0, 1} && spare == {} && |slots| == 16 && forall k | 0 <= k < 16 :: !slots[k].inUse
      ensures ok ==> refs == map[] && open == map[]
    {
      hide Inv, Known, Flat;
      ok := FreeMapCreate(mapSize, grants, mapWritten);
      if !ok {
        return;
      }
      ok := PermanentInode(1, 16 * 20, grants.inode, grants.dataWrite);
      if !ok {
        return;
      }
      EmptySlots(View());
      slots := seq(16, k => Slot(false, "", 0));
      FileClose(freeMapFile.value);
    }

    // free_map_create.
    method FreeMapCreate(mapSize: nat, grants: Grants, mapWritten: bool) returns (ok: bool)
      requires Valid() && roots == links.Keys == open.Keys == refs.Keys == {} && spare == {0, 1} && freeMapFile.None? && slots == []
      modifies this, freeMap.bits, device
      ensures Valid()
      ensures ok ==> roots == {0} && links == map[] && spare == {1} && slots == []
      ensures ok ==> freeMapFile.Some? && refs == map[freeMapFile.value := Ref(0, false)] && open.Keys == {0} && open[0].cnt == 1
    {
      hide Inv, Known, Flat;
      ok := PermanentInode(0, mapSize, grants.inode, grants.sectorWrite);
      if !ok {
        return;
      }
      RootKnown(View(), 0);
      var inode := InodeOpen(0, grants.inode);
      freeMapFile := FileOpen(inode, grants.dir);
      ok := freeMapFile.Some? && mapWritten;
    }

    /** free_map_open: the free map's file is held open from now on. False stands for stopping the kernel. */
    method FreeMapOpen(inodeMemory: bool, fileMemory: bool) returns (ok: bool)
      requires Valid() && 0 in roots
      modifies this`open, this`refs, this`nextRef, this`owner, this`spare, this`freeMapFile, freeMap.bits
      ensures Valid() && old(spare) <= spare
      ensures ok <==> (inodeMemory || 0 in old(open)) && fileMemory
      ensures ok ==> freeMapFile.Some? && freeMapFile.value !in old(refs) && 0 in heads && View() == Opened(old(View()), 0, freeMapFile.value)
      ensures !ok ==> View() == old(View())
    {
      hide Inv, Known;
      ghost var fs := View();
      RootKnown(fs, 0);
      RootFacts(fs, 0);
      var inode := InodeOpen(0, inodeMemory);
      freeMapFile := FileOpen(inode, fileMemory);
      ok := freeMapFile.Some?;
      if inode.Some? && !ok {
        CloseUndoesOpen(fs, 0, inode.value);
      }
    }

    // Creates an inode that is never removed.
    method PermanentInode(i: nat, size: nat, memory: bool, written: bool) returns (ok: bool)
      requires Valid() && i in spare
      modifies this`heads, this`roots, this`owner, this`spare, freeMap.bits, device
      ensures Valid()
      ensures ok ==> roots == old(roots) + {i} && spare == old(spare) - {i} && i in heads
      ensures !ok ==> View() == old(View())
    {
      hide Inv, Data, Range, Ready;
      ok := InodeCreate(i, size, memory, written);
      if ok {
        AdoptFirst(i);
      }
    }

    // A new inode becomes permanent.
    ghost method AdoptFirst(i: nat)
      requires Valid() && Ready(View(), i)
      modifies this`roots, this`owner, this`spare
      ensures Valid() && i in heads && View() == Adopt(old(View()), i) && roots == old(roots) + {i} && spare == old(spare) - Foot(i, heads[i])
    {
      hide Inv, Data, Foot, Range;
      AdoptKeeps(View(), i);
      roots := roots + {i};
      owner := owner + map s | s in Foot(i, heads[i]) :: i;
      spare := spare - Foot(i, heads[i]);
    }
  }

  lemma OpenedKnown(fs: Fs, i: nat, r: nat)
    requires i in fs.roots && i in fs.heads
    ensures Known(Opened(fs, i, r)) == Known(fs)
  {
  }

  lemma RootKnown(fs: Fs, i: nat)
    requires i in fs.roots
    ensures i in Known(fs)
  {
  }

  lemma SameKnown(fs: Fs, f: Fs)
    requires f.roots == fs.roots && f.links == fs.links && f.open == fs.open
    ensures Known(f) == Known(fs)
  {
  }

  lemma EmptySlots(fs: Fs)
    requires Inv(fs) && fs.slots == [] && fs.links.Keys == {}
    ensures Inv(fs.(slots := seq(16, k => Slot(false, "", 0))))
  {
    hide OwnerInv, BitsInv, OpenInv, Known;
    var f := fs.(slots := seq(16, k => Slot(false, "", 0)));
    SameKnown(fs, f);
    OwnersSame(fs, f);
    BitsSame(fs, f);
    OpensSame(fs, f);
  }

  // The inode of a directory entry.
  lemma SlotFacts(fs: Fs, k: nat)
    requires Inv(fs) && k < |fs.slots| && fs.slots[k].inUse
    ensures var i := fs.slots[k].sector;
      && i in Known(fs) && i in fs.links && i in fs.heads && i !in fs.roots && InodeInv(fs, i)
      && (i in fs.open ==> OpenedInv(fs, i) && !fs.open[i].removed)
  {
    hide Holders, Deniers, Foot, Data;
    var i := fs.slots[k].sector;
    KnownInode(fs, i);
    if i in fs.open {
      OpenInode(fs, i);
    }
  }

  // A search has one result.
  lemma FoundOnce(slots: seq<Slot>, name: string, readable: nat, found: Bitmap.Option<nat>)
    requires FoundAt(slots, name, readable, found)
    ensures forall k: nat | FoundAt(slots, name, readable, Bitmap.Some(k)) :: found == Bitmap.Some(k)
  {
  }

  /**
   What dir_add does to names and entries. Names stay unique exactly when the name is in no slot behind those its
   lookup could read; another entry is overwritten exactly when the search ends early, with used slots only.
   */
  lemma NamesStayUnique(slots: seq<Slot>, name: string, m: DirMemory, k: nat, i: nat)
    requires UniqueNames(slots) && !Refused(slots, name, m) && IsTarget(slots, m.search, k)
    ensures k < |slots|
    ensures UniqueNames(slots[k := Slot(true, name, i)]) <==> forall j | m.lookup <= j < |slots| && j != k :: !HasName(slots[j], name)
    ensures slots[k].inUse <==> m.search < |slots| && forall j | 0 <= j <= m.search :: slots[j].inUse
  {
    var after := slots[k := Slot(true, name, i)];
    if j :| 0 <= j < |slots| && j != k && HasName(slots[j], name) {
      assert after[j].name == after[k].name && after[j].inUse && after[k].inUse;
    }
  }

  /** With memory for everything a name is refused exactly when it is empty, longer than 14 characters or taken, or the directory is full. */
  lemma RefusedExactly(slots: seq<Slot>, name: string, m: DirMemory)
    requires m.lookup >= |slots| && m.search >= |slots| && m.write
    ensures Refused(slots, name, m) <==>
      || |name| == 0 || |name| > 14 || (exists k :: 0 <= k < |slots| && slots[k].inUse && slots[k].name == name)
      || forall k | 0 <= k < |slots| :: slots[k].inUse
  {
    if k :| 0 <= k < |slots| && slots[k].inUse && slots[k].name == name {
      assert HasName(slots[k], name);
    }
  }

  /** After the removal of the first entry with a name no entry has it, if names were unique; the other entries are as they were. */
  lemma RemovedEntry(fs: Fs, name: string, readable: nat, k: nat)
    requires UniqueNames(fs.slots) && FoundAt(fs.slots, name, readable, Bitmap.Some(k)) && CanRemove(fs, k)
    ensures var slots := Removed(fs, k).slots;
      && |slots| == |fs.slots| && k < |slots| && !slots[k].inUse && (forall j | 0 <= j < |slots| && j != k :: slots[j] == fs.slots[j])
      && forall j | 0 <= j < |slots| :: !(slots[j].inUse && slots[j].name == name)
  {
    hide Foot;
    assert fs.slots[k].inUse && fs.slots[k].name == name;
  }

  /** What becomes of the sectors of a removed file: nothing yet while it is open, which is noted; otherwise they are free, and no others. */
  lemma RemovedSectors(fs: Fs, k: nat)
    requires CanRemove(fs, k)
    ensures var f, i := Removed(fs, k), fs.slots[k].sector;
      var e := fs.heads[i];
      && f.open.Keys == fs.open.Keys && |f.bits| == |fs.bits| && f.refs == fs.refs && f.heads == fs.heads
      && (forall j | j in fs.open && j != i :: f.open[j] == fs.open[j])
      && (i in fs.open ==> f.bits == fs.bits && f.open[i] == Open(fs.open[i].cnt, true, fs.open[i].denyCnt, fs.open[i].data))
      && (i !in fs.open ==> forall s | 0 <= s < |fs.bits| :: f.bits[s] <==> fs.bits[s] && s != i && !(e.start <= s < e.start + (e.length + 511) / 512))
  {
    hide Foot;
  }

  /** Opening counts one opener more; an inode that was not open is read from its sector. */
  lemma OpenedMeaning(fs: Fs, i: nat, r: nat)
    requires i in fs.heads && r !in fs.refs
    ensures var f := Opened(fs, i, r);
      && i in f.open && f.refs == fs.refs[r := Ref(i, false)] && f.bits == fs.bits && f.slots == fs.slots
      && (forall j | j in fs.open && j != i :: j in f.open && f.open[j] == fs.open[j]) && (forall j | j in f.open && j != i :: j in fs.open)
      && f.open[i] == if i in fs.open then Open(fs.open[i].cnt + 1, fs.open[i].removed, fs.open[i].denyCnt, fs.open[i].data) else Open(1, false, 0, fs.heads[i])
  {
  }

  /** A name is added again when the lookup found no memory for its first read. */
  lemma AddedTwice()
    ensures var slots, m := [Slot(true, "a", 5), Slot(false, "", 0)], DirMemory(0, 9, true);
      && UniqueNames(slots) && !Refused(slots, "a", m) && IsTarget(slots, m.search, 1)
      && !UniqueNames(slots[1 := Slot(true, "a", 7)])
  {
    var slots, m := [Slot(true, "a", 5), Slot(false, "", 0)], DirMemory(0, 9, true);
    assert !slots[1].inUse && slots[0].inUse;
    assert HasName(slots[0], "a");
    NamesStayUnique(slots, "a", m, 1, 7);
  }

  /** The entry of another file is overwritten when the search for a free slot found no memory for its first read. */
  lemma Overwritten()
    ensures var slots, m := [Slot(true, "a", 5)], DirMemory(9, 0, true);
      && !Refused(slots, "b", m) && IsTarget(slots, m.search, 0) && slots[0].inUse
  {
  }

  /** Sectors are lost when the directory refuses a name only after the inode was created: for one of 15 characters, say. */
  lemma SectorsLost(slots: seq<Slot>, m: DirMemory)
    ensures var name, bits := "abcdefghijklmno", [true, true, false, false];
      CanCreate(bits, 1, Grants(true, true, true, true, m), true) && Refused(slots, name, m)
  {
    var bits := [true, true, false, false];
    assert bits[0] && bits[1] && !bits[2] && !bits[3];
    assert Bitmap.AllAre(bits, 2, 1, false);
    assert Bitmap.FirstGroup(bits, 0, 1, false, Bitmap.Some(2));
    var bits' := bits[2 := true];
    assert bits'[0] && bits'[1] && bits'[2] && !bits'[3];
    assert Bitmap.AllAre(bits', 3, 1, false);
    assert Bitmap.FirstGroup(bits', 0, 1, false, Bitmap.Some(3));
    if Bitmap.FirstGroup(bits', 0, 1, false, Bitmap.None) {
      FirstIsUnique(bits', 1, Bitmap.None, Bitmap.Some(3));
    }
  }

  // A scan has one result.
  lemma FirstIsUnique(bits: seq<bool>, cnt: nat, a: Bitmap.Option<nat>, b: Bitmap.Option<nat>)
    requires Bitmap.FirstGroup(bits, 0, cnt, false, a) && Bitmap.FirstGroup(bits, 0, cnt, false, b)
    ensures a == b
  {
    hide Bitmap.AllAre;
  }

  // When the free map and the environment let an inode be created, given what the first scan found.
  lemma CreateIff(bits: seq<bool>, size: nat, grants: Grants, mapped: bool, sector: Bitmap.Option<nat>)
    requires sector.Some? ==> Bitmap.FirstGroup(bits, 0, 1, false, sector)
    requires sector.None? <==> Bitmap.FirstGroup(bits, 0, 1, false, Bitmap.None) || (mapped && !grants.sectorWrite)
    ensures CanCreate(bits, size, grants, mapped) <==>
      sector.Some? && sector.value < |bits| && grants.inode && (mapped ==> grants.dataWrite)
      && !Bitmap.FirstGroup(bits[sector.value := true], 0, (size + 511) / 512, false, Bitmap.None)
  {
    if sector.Some? {
      assert sector.value < |bits| by { assert Bitmap.AllAre(bits, sector.value, 1, false); }
    }
    hide Bitmap.FirstGroup;
    forall s: nat | Bitmap.FirstGroup(bits, 0, 1, false, Bitmap.Some(s))
      ensures sector.Some? ==> sector.value == s
      ensures !Bitmap.FirstGroup(bits, 0, 1, false, Bitmap.None)
    {
      if sector.Some? {
        FirstIsUnique(bits, 1, sector, Bitmap.Some(s));
      }
      if Bitmap.FirstGroup(bits, 0, 1, false, Bitmap.None) {
        FirstIsUnique(bits, 1, Bitmap.None, Bitmap.Some(s));
      }
    }
  }

  lemma NewInode(fs: Fs, i: nat)
    requires Inv(fs) && Ready(fs, i)
    ensures i !in Known(fs) && i in fs.heads
  {
    hide OwnerInv, BitsInv, SlotInv, OpenInv, Known, Ready;
    ReadyIsNew(fs, i);
  }

  /** The sectors that are lost when the entry in slot k is overwritten. */
  ghost function Displaced(fs: Fs, k: nat): set<nat> {
    if k < |fs.slots| && fs.slots[k].inUse && fs.slots[k].sector !in fs.open && fs.slots[k].sector in fs.heads
    then Foot(fs.slots[k].sector, fs.heads[fs.slots[k].sector]) else {}
  }

  lemma DisplacedOwned(fs: Fs, k: nat)
    requires Inv(fs) && k < |fs.slots| && fs.slots[k].inUse
    ensures fs.slots[k].sector in fs.links && Displaced(fs, k) !! fs.spare
  {
    hide OpenInv, Foot;
    SlotFacts(fs, k);
  }

  // The state is g after an inode was created in the sector i, which was free in fs.
  ghost predicate Made(fs: Fs, g: Fs, i: nat, size: nat, before: seq<Sector>, after: seq<Sector>) {
    && Ready(g, i) && g.heads == fs.heads[i := g.heads[i]] && g.heads[i].length == size && Zeroed(before, after, i, g.heads[i])
    && i !in fs.spare && fs.spare !! Data(g.heads[i]) && g.spare == (fs.spare + {i}) + Data(g.heads[i])
    && Known(g) == Known(fs) && g.owner == fs.owner && g.slots == fs.slots && g.links == fs.links && g.open == fs.open && |before| == |fs.bits|
  }

  // The new inode is linked.
  lemma FileAdded(fs: Fs, g: Fs, f: Fs, before: seq<Sector>, after: seq<Sector>, name: string, size: nat, i: nat, readable: nat)
    requires Inv(fs) && Inv(g) && Made(fs, g, i, size, before, after)
    requires exists k: nat :: IsTarget(g.slots, readable, k) && k < |g.slots| && f == Link(Dropped(g, k), k, name, i)
    ensures NewFile(fs, f, before, after, name, size, readable)
  {
    hide Inv, Data, Known, IsTarget, Foot, Ready, Link, Dropped, Displaced, Zeroed;
    NewInode(g, i);
    var k: nat :| IsTarget(g.slots, readable, k) && k < |g.slots| && f == Link(Dropped(g, k), k, name, i);
    LinkedOver(g, k, name, i);
    if g.slots[k].inUse {
      SlotFacts(g, k);
    }
    SameDisplaced(fs, g, k, i);
    SpareBack(fs.spare, Data(g.heads[i]), Foot(i, g.heads[i]), Displaced(fs, k), i);
    assert Foot(i, g.heads[i]) == {i} + Data(g.heads[i]) by { FootIs(i, g.heads[i]); }
  }

  lemma FootIs(i: nat, e: Extent)
    ensures Foot(i, e) == {i} + Data(e)
  {
  }

  lemma SpareBack(spare: set<nat>, data: set<nat>, foot: set<nat>, more: set<nat>, i: nat)
    ensures foot == {i} + data && i !in spare && spare !! data && more !! (spare + {i}) + data ==> (((spare + {i}) + data) + more) - foot == spare + more
  {
  }

  lemma SameDisplaced(fs: Fs, g: Fs, k: nat, i: nat)
    requires g.slots == fs.slots && g.open == fs.open && i in g.heads && g.heads == fs.heads[i := g.heads[i]] && k < |g.slots|
    requires Ready(g, i) && Inv(g) && i !in Known(g) && (g.slots[k].inUse ==> g.slots[k].sector in Known(g))
    ensures Displaced(g, k) == Displaced(fs, k)
  {
    hide Inv, Known, Foot, Ready;
  }

  lemma LinkFrame(g: Fs, k: nat, name: string, i: nat)
    requires i in g.heads && k < |g.slots|
    ensures var f := Link(Dropped(g, k), k, name, i); f.bits == g.bits && f.open == g.open && f.refs == g.refs && f.roots == g.roots
  {
    hide Foot;
  }

  lemma LinkedOver(g: Fs, k: nat, name: string, i: nat)
    requires Inv(g) && Ready(g, i) && k < |g.slots|
    ensures i in g.heads
    ensures var f := Link(Dropped(g, k), k, name, i);
      && f.slots == g.slots[k := Slot(true, name, i)] && f.heads == g.heads
      && f.spare == (g.spare + Displaced(g, k)) - Foot(i, g.heads[i]) && Displaced(g, k) !! g.spare
  {
    hide Inv, Foot, Data;
    if g.slots[k].inUse {
      DisplacedOwned(g, k);
    }
  }

  // The new inode is not linked: its data sectors stay marked.
  lemma DataLeaked(fs: Fs, g: Fs, i: nat, size: nat, before: seq<Sector>, after: seq<Sector>)
    requires Made(fs, g, i, size, before, after)
    ensures Leaked(fs.spare, g.spare - {i}, (size + 511) / 512)
  {
    hide Known, Flat;
    assert g.spare - {i} == fs.spare + Range(g.heads[i].start, g.heads[i].Sectors());
  }

  /** The free map has a sector for the inode and then a run for its data, and the environment grants everything. */
  ghost predicate CanCreate(bits: seq<bool>, size: nat, grants: Grants, mapped: bool) {
    && grants.inode && (mapped ==> grants.sectorWrite && grants.dataWrite)
    && exists s: nat :: s < |bits| && Bitmap.FirstGroup(bits, 0, 1, false, Bitmap.Some(s))
         && !Bitmap.FirstGroup(bits[s := true], 0, (size + 511) / 512, false, Bitmap.None)
  }

  /** A new inode of the given size has the name, in the slot where the search ended. It reads as zeros, and only its sectors were written. */
  ghost predicate NewFile(fs: Fs, f: Fs, before: seq<Sector>, after: seq<Sector>, name: string, size: nat, readable: nat) {
    exists k: nat, i :: k < |fs.slots| && IsTarget(fs.slots, readable, k) && f.slots == fs.slots[k := Slot(true, name, i)]
      && i !in Known(fs) && i in f.heads && f.heads == fs.heads[i := f.heads[i]] && f.spare == fs.spare + Displaced(fs, k)
      && f.heads[i].length == size && Zeroed(before, after, i, f.heads[i])
  }

  // An inode's data sectors are zeros, and no sectors but its own have been written.
  ghost predicate Zeroed(before: seq<Sector>, after: seq<Sector>, i: nat, e: Extent) {
    && |after| == |before| && e.Fits(after) && Flat(after, e) == seq(e.length, j => 0)
    && forall s | 0 <= s < |after| && s !in Foot(i, e) :: after[s] == before[s]
  }

  /** Marked sectors are as they were. */
  ghost predicate OnlyFree(bits: seq<bool>, before: seq<Sector>, after: seq<Sector>) {
    |after| == |before| == |bits| && forall s | 0 <= s < |bits| && bits[s] :: after[s] == before[s]
  }

  /** The inodes that exist have the extents they had. */
  ghost predicate InodesKept(fs: Fs, f: Fs) {
    forall i | i in Known(fs) && i in fs.heads :: i in f.heads && f.heads[i] == fs.heads[i]
  }

  /** So no file that exists reads differently. */
  lemma FilesKept(fs: Fs, f: Fs, before: seq<Sector>, after: seq<Sector>, i: nat)
    requires Inv(fs) && i in Known(fs) && OnlyFree(fs.bits, before, after) && InodesKept(fs, f)
    ensures i in fs.heads && i in f.heads && fs.heads[i].Fits(before) && f.heads[i].Fits(after)
    ensures Flat(after, f.heads[i]) == Flat(before, fs.heads[i]) && after[i] == before[i]
  {
    hide OwnerInv, SlotInv, OpenInv, Known, Flat;
    KnownInode(fs, i);
    FootMarked(fs, i);
    var e := fs.heads[i];
    assert forall k | e.start <= k < e.start + e.Sectors() :: after[k] == before[k];
    assert after[i] == before[i];
    SameBytes(before, after, e);
  }

  lemma SameBytes(before: seq<Sector>, after: seq<Sector>, e: Extent)
    requires e.Fits(before) && |after| == |before| && forall k | e.start <= k < e.start + e.Sectors() :: after[k] == before[k]
    ensures Flat(after, e) == Flat(before, e)
  {
    forall pos | 0 <= pos < e.length
      ensures ByteAt(after, e, pos) == ByteAt(before, e, pos)
    {
    }
  }

  lemma NoChange(fs: Fs, d: seq<Sector>)
    ensures InodesKept(fs, fs) && (|d| == |fs.bits| ==> OnlyFree(fs.bits, d, d))
  {
  }

  lemma SameInodes(fs: Fs, g: Fs, h: Fs)
    ensures h.heads == g.heads && InodesKept(fs, g) ==> InodesKept(fs, h)
  {
  }

  // While the directory is open.
  lemma SameNewFile(fs: Fs, g: Fs, f: Fs, h: Fs, before: seq<Sector>, after: seq<Sector>, name: string, size: nat, readable: nat)
    requires Inv(fs) && 1 in fs.roots && NewFile(g, f, before, after, name, size, readable)
    requires g.slots == fs.slots && g.spare == fs.spare && g.heads == fs.heads && Known(g) == Known(fs) && g.open.Keys == fs.open.Keys + {1}
    requires h.slots == f.slots && h.heads == f.heads && h.spare == f.spare
    ensures NewFile(fs, h, before, after, name, size, readable)
  {
    hide Inv, Known, IsTarget, Foot, Zeroed;
    var k: nat, i :| k < |g.slots| && IsTarget(g.slots, readable, k) && f.slots == g.slots[k := Slot(true, name, i)]
      && i !in Known(g) && i in f.heads && f.heads == g.heads[i := f.heads[i]] && f.spare == g.spare + Displaced(g, k)
      && f.heads[i].length == size && Zeroed(before, after, i, f.heads[i]);
    if fs.slots[k].inUse {
      SlotFacts(fs, k);
    }
    assert Displaced(fs, k) == Displaced(g, k);
  }

  // A new inode is made of sectors that were free.
  lemma MadeOfFree(fs: Fs, g: Fs, i: nat, size: nat, before: seq<Sector>, after: seq<Sector>)
    requires Inv(fs) && Inv(g) && Made(fs, g, i, size, before, after)
    ensures OnlyFree(fs.bits, before, after) && InodesKept(fs, g)
  {
    hide Known, OwnerInv, SlotInv, OpenInv, Data, Ready, Flat;
    NewInode(g, i);
    forall s | 0 <= s < |fs.bits| && fs.bits[s]
      ensures s !in Foot(i, g.heads[i])
    {
      ReadySpare(g, i);
    }
  }

  lemma ReadySpare(g: Fs, i: nat)
    requires Ready(g, i)
    ensures i in g.heads && Foot(i, g.heads[i]) <= g.spare
  {
  }

  lemma NewFileSpare(fs: Fs, f: Fs, before: seq<Sector>, after: seq<Sector>, name: string, size: nat, readable: nat)
    requires NewFile(fs, f, before, after, name, size, readable)
    ensures fs.spare <= f.spare
  {
    hide Known, IsTarget, Zeroed;
  }

  lemma LeakedSpare(spare: set<nat>, spare': set<nat>, n: nat)
    requires Leaked(spare, spare', n)
    ensures spare <= spare'
  {
  }

  /** n sectors more are marked that belong to nobody. */
  ghost predicate Leaked(spare: set<nat>, spare': set<nat>, n: nat) {
    exists start :: Range(start, n) !! spare && spare' == spare + Range(start, n)
  }

  // A permanent inode.
  lemma RootFacts(fs: Fs, i: nat)
    requires Inv(fs) && i in fs.roots
    ensures i in Known(fs) && i in fs.heads && (i in fs.open ==> OpenedInv(fs, i) && !fs.open[i].removed) && i < |fs.bits| && fs.bits[i]
  {
    hide SlotInv, Holders, Deniers;
    KnownInode(fs, i);
    assert i in Foot(i, fs.heads[i]);
    if i in fs.open {
      OpenInode(fs, i);
    }
  }

  // Closing the directory undoes its opening.
  lemma CloseDir(fs: Fs, g: Fs, d: nat)
    requires Inv(fs) && 1 in fs.roots && 1 in fs.heads && d !in fs.refs
    requires d in g.refs && g.refs[d] == Ref(1, false) && 1 in g.open && g.open[1] == Opened(fs, 1, d).open[1] && 1 in g.roots
    ensures Closed(g, d) == g.(refs := g.refs - {d}, open := if 1 in fs.open then g.open[1 := fs.open[1]] else g.open - {1})
  {
    hide Inv, Holders, Deniers;
    RootFacts(fs, 1);
  }

  // Opening and closing once leaves everything as it was.
  lemma CloseUndoesOpen(fs: Fs, i: nat, r: nat)
    requires Inv(fs) && i in Known(fs) && r !in fs.refs && i in fs.heads && (i in fs.links || i in fs.roots)
    ensures Closed(Opened(fs, i, r), r) == fs
  {
    hide Holders, Deniers, OwnerInv, BitsInv, SlotInv, Known;
    if i in fs.open {
      OpenInode(fs, i);
    }
    var g := Opened(fs, i, r);
    var f := Closed(g, r);
    assert f.refs == fs.refs;
    assert f.open == fs.open;
  }

  // The state after the directory was searched and closed.
  lemma OpenResult(fs: Fs, d: Fs, f: Fs, dir: nat, inode: Bitmap.Option<nat>, found: Bitmap.Option<nat>)
    requires Inv(fs) && 1 in fs.roots && 1 in fs.heads && dir !in fs.refs && d == Opened(fs, 1, dir)
    requires found.Some? ==> found.value < |fs.slots| && fs.slots[found.value].inUse
    requires inode.Some? ==> found.Some? && inode.value !in d.refs && fs.slots[found.value].sector in fs.heads
    requires var g := if inode.Some? then Opened(d, fs.slots[found.value].sector, inode.value) else d;
      f == g.(refs := g.refs - {dir}, open := if 1 in fs.open then g.open[1 := fs.open[1]] else g.open - {1})
    ensures f == if inode.Some? then Opened(fs, fs.slots[found.value].sector, inode.value) else fs
    ensures inode.Some? ==> fs.slots[found.value].sector in Known(fs) && fs.slots[found.value].sector in fs.links
    ensures inode.Some? ==> (fs.slots[found.value].sector in d.open <==> fs.slots[found.value].sector in fs.open)
  {
    hide Inv, Holders, Deniers, Known;
    if inode.Some? {
      SlotFacts(fs, found.value);
      assert fs.slots[found.value].sector != 1;
      OpenedTwo(fs, f, fs.slots[found.value].sector, dir, inode.value);
    } else {
      assert f.refs == fs.refs && f.open == fs.open;
    }
  }

  lemma OpenedTwo(fs: Fs, f: Fs, i: nat, dir: nat, r: nat)
    requires 1 in fs.heads && i in fs.heads && i != 1 && dir !in fs.refs && r !in fs.refs && r != dir
    requires var g := Opened(Opened(fs, 1, dir), i, r); f == g.(refs := g.refs - {dir}, open := if 1 in fs.open then g.open[1 := fs.open[1]] else g.open - {1})
    ensures f == Opened(fs, i, r) && (i in Opened(fs, 1, dir).open <==> i in fs.open)
  {
    assert f.refs == Opened(fs, i, r).refs;
    assert f.open == Opened(fs, i, r).open;
  }

  ghost predicate CanRemove(fs: Fs, k: nat) {
    && k < |fs.slots| && fs.slots[k].sector in fs.heads
    && fs.slots[k].sector < |fs.bits| && fs.heads[fs.slots[k].sector].start + fs.heads[fs.slots[k].sector].Sectors() <= |fs.bits|
  }

  /** What filesys_remove does to slot k: an open inode is marked, the sectors of any other are released. */
  ghost function Removed(fs: Fs, k: nat): Fs
    requires CanRemove(fs, k)
  {
    var i := fs.slots[k].sector;
    var e := fs.heads[i];
    if i in fs.open then Unlink(fs, k)
    else fs.(slots := fs.slots[k := Slot(false, fs.slots[k].name, i)], links := fs.links - {i}, owner := fs.owner - Foot(i, e),
             bits := Bitmap.Filled(Bitmap.Filled(fs.bits, i, 1, false), e.start, e.Sectors(), false))
  }

  lemma RemoveResult(fs: Fs, dir: nat, k: nat, r: nat)
    requires Inv(fs) && 1 in fs.roots && 1 in fs.heads && dir !in fs.refs && r !in fs.refs && r != dir
    requires k < |fs.slots| && fs.slots[k].inUse && fs.slots[k].sector in fs.heads
    ensures CanRemove(fs, k)
    ensures var i := fs.slots[k].sector;
      var g := Closed(Unlink(Opened(Opened(fs, 1, dir), i, r), k), r);
      && dir in g.refs && 1 in g.open && g.refs[dir] == Ref(1, false) && g.open[1] == Opened(fs, 1, dir).open[1]
      && g.(refs := g.refs - {dir}, open := if 1 in fs.open then g.open[1 := fs.open[1]] else g.open - {1}) == Removed(fs, k)
  {
    hide Inv, Holders, Deniers, Known, Foot;
    SlotFacts(fs, k);
    var i := fs.slots[k].sector;
    assert i != 1;
    if i in fs.open {
      RemoveOpen(fs, dir, k, r);
    } else {
      RemoveClosed(fs, dir, k, r);
    }
  }

  lemma RemoveOpen(fs: Fs, dir: nat, k: nat, r: nat)
    requires 1 in fs.heads && dir !in fs.refs && r !in fs.refs && r != dir && CanRemove(fs, k) && fs.slots[k].sector != 1
    requires fs.slots[k].sector in fs.open && fs.open[fs.slots[k].sector].cnt >= 1
    ensures var i := fs.slots[k].sector;
      var g := Closed(Unlink(Opened(Opened(fs, 1, dir), i, r), k), r);
      && dir in g.refs && 1 in g.open && g.refs[dir] == Ref(1, false) && g.open[1] == Opened(fs, 1, dir).open[1]
      && g.(refs := g.refs - {dir}, open := if 1 in fs.open then g.open[1 := fs.open[1]] else g.open - {1}) == Removed(fs, k)
  {
    var g := Closed(Unlink(Opened(Opened(fs, 1, dir), fs.slots[k].sector, r), k), r);
    assert g.refs - {dir} == fs.refs;
    assert (if 1 in fs.open then g.open[1 := fs.open[1]] else g.open - {1}) == Removed(fs, k).open;
  }

  lemma RemoveClosed(fs: Fs, dir: nat, k: nat, r: nat)
    requires 1 in fs.heads && dir !in fs.refs && r !in fs.refs && r != dir && CanRemove(fs, k) && fs.slots[k].sector != 1
    requires fs.slots[k].sector !in fs.open
    ensures var i := fs.slots[k].sector;
      var g := Closed(Unlink(Opened(Opened(fs, 1, dir), i, r), k), r);
      && dir in g.refs && 1 in g.open && g.refs[dir] == Ref(1, false) && g.open[1] == Opened(fs, 1, dir).open[1]
      && g.(refs := g.refs - {dir}, open := if 1 in fs.open then g.open[1 := fs.open[1]] else g.open - {1}) == Removed(fs, k)
  {
    hide Foot;
    var g := Closed(Unlink(Opened(Opened(fs, 1, dir), fs.slots[k].sector, r), k), r);
    assert g.refs - {dir} == fs.refs;
    assert (if 1 in fs.open then g.open[1 := fs.open[1]] else g.open - {1}) == Removed(fs, k).open;
  }

  lemma SectorAllocated(fs: Fs, s: nat)
    requires Inv(fs) && Bitmap.FirstGroup(fs.bits, 0, 1, false, Bitmap.Some(s)) && 0 in fs.roots
    ensures s < |fs.bits| && s != 0 && Bitmap.AllAre(fs.bits, s, 1, false) && s !in fs.spare
    ensures Inv(Alloc(fs, s, 1)) && Alloc(fs, s, 1).spare == fs.spare + {s} && Bitmap.Filled(fs.bits, s, 1, true) == fs.bits[s := true]
  {
    hide OwnerInv, SlotInv, OpenInv;
    assert Bitmap.AllAre(fs.bits, s, 1, false);
    AllocKeeps(fs, s, 1);
    AllocBits(fs, s, 1);
    RootFacts(fs, 0);
    assert s in Range(s, 1);
  }

  lemma SpareReleased(fs: Fs, s: nat)
    requires Inv(fs) && s in fs.spare
    ensures s < |fs.bits| && Bitmap.AllAre(fs.bits, s, 1, true) && Inv(Unalloc(fs, s, 1)) && Unalloc(fs, s, 1).spare == fs.spare - {s}
  {
    hide OwnerInv, SlotInv, OpenInv;
    assert Range(s, 1) == {s};
    UnallocKeeps(fs, s, 1);
    UnallocBits(fs, s, 1);
  }

  // What InodeCreate leaves.
  lemma Allocated(fs: Fs, sector: nat, e: Extent)
    requires Inv(fs) && sector in fs.spare && Bitmap.AllAre(fs.bits, e.start, e.Sectors(), false)
    ensures var f := Alloc(fs, e.start, e.Sectors());
      var g := f.(heads := f.heads[sector := e]);
      && Inv(g) && Ready(g, sector) && fs.spare !! Data(e) && f.spare == fs.spare + Data(e)
  {
    hide OwnerInv, SlotInv, OpenInv, Range;
    var f := Alloc(fs, e.start, e.Sectors());
    AllocKeeps(fs, e.start, e.Sectors());
    AllocBits(fs, e.start, e.Sectors());
    WriteHeadKeeps(f, sector, e);
  }

  lemma CloseFacts(fs: Fs, r: nat)
    requires Inv(fs) && r in fs.refs
    ensures var i := fs.refs[r].sector;
      i in fs.open && fs.open[i].cnt >= 1 && i !in Data(fs.open[i].data) && i < |fs.bits| && fs.open[i].data.start + fs.open[i].data.Sectors() <= |fs.bits|
  {
    hide BitsInv, SlotInv, OwnerInv, Holders, Deniers;
    assert fs.refs[r].sector in fs.open && OpenedInv(fs, fs.refs[r].sector);
    KnownInode(fs, fs.refs[r].sector);
  }

  // The data sectors are marked after the inode's own sector is released.
  lemma StillMarked(fs: Fs, i: nat, e: Extent)
    requires i < |fs.bits| && Bitmap.AllAre(fs.bits, e.start, e.Sectors(), true) && i !in Data(e)
    ensures Bitmap.AllAre(Bitmap.Filled(fs.bits, i, 1, false), e.start, e.Sectors(), true)
  {
  }

  function Zeros(): Sector { seq(512, i => 0) }

  lemma ZerosFlat(d: seq<Sector>, e: Extent)
    requires e.Fits(d) && forall k | e.start <= k < e.start + e.Sectors() :: d[k] == Zeros()
    ensures Flat(d, e) == seq(e.length, i => 0)
  {
  }

  /** Writing to the data of one inode changes no inode on the device and no other file's data. */
  lemma WritesStayInside(fs: Fs, d: seq<Sector>, i: nat, j: nat, offset: nat, data: seq<Byte>)
    requires Inv(fs) && i in Known(fs) && j in Known(fs) && |d| == |fs.bits|
    requires i in fs.heads && (data == [] || offset + |data| <= fs.heads[i].length)
    ensures j in fs.heads && j < |d| && fs.heads[i].Fits(d) && fs.heads[j].Fits(d)
    ensures var r := Written(d, fs.heads[i], offset, data);
      r[j] == d[j] && (i != j ==> Flat(r, fs.heads[j]) == Flat(d, fs.heads[j]))
  {
    hide OwnerInv, BitsInv, SlotInv, OpenInv, Known, Written;
    KnownInode(fs, i);
    KnownInode(fs, j);
    var e, f := fs.heads[i], fs.heads[j];
    OthersKept(d, e, offset, data);
    var r := Written(d, e, offset, data);
    assert j !in Data(e) by {
      if i != j {
        InodesDisjoint(fs, i, j);
        assert j in Foot(j, f);
      }
    }
    if i != j {
      InodesDisjoint(fs, i, j);
      forall pos | 0 <= pos < f.length
        ensures ByteAt(r, f, pos) == ByteAt(d, f, pos)
      {
        var k := f.start + pos / 512;
        assert k in Data(f) && k in Foot(j, f) && k !in Foot(i, e);
        assert r[k] == d[k];
      }
    }
  }
}
