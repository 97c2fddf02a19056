/** The FAT32 driver of drivers/fat32.c over a disk whose sector writes may fail. */
module Fat32 {
  import opened Bytes
  import opened FatLayout
  import opened FatVolume
  import opened FatTable
  import opened FatFailure
  import opened ShortNames

  /** What scanning one directory sector found. */
  datatype Scan = Found(offset: nat) | EndOfDirectory | Absent

  /** How taking one more cluster for a file ended. */
  datatype Append = Appended | NoCluster | LinkFailed | WriteFailed

  /** Entry `i` of a directory sector is in use and not called `target`. */
  ghost predicate Passed(sec: Sector, i: nat, target: Name) {
    i < 16 && sec[32 * i] != 0 && !Match(sec[32 * i..32 * i + 32], target)
  }

  /** The entry at `off` of a directory sector is called `target`. */
  ghost predicate MatchAt(sec: Sector, off: nat, target: Name) {
    off < 512 && off % 32 == 0 && Match(sec[off..off + 32], target)
  }

  /** `r` is what a scan of `sec` for `target` answers: the first match or end mark decides. */
  ghost predicate Scanned(sec: Sector, r: Scan, target: Name) {
    match r
    case Found(off) => MatchAt(sec, off, target)
    case EndOfDirectory =>
      exists j: nat :: j < 16 && sec[32 * j] == 0 && forall i :: 0 <= i < j ==> Passed(sec, i, target)
    case Absent => forall i :: 0 <= i < 16 ==> Passed(sec, i, target)
  }

  /** Entry `i` of a directory sector holds an entry that was not deleted. */
  ghost predicate EntryUsed(sec: Sector, i: nat) {
    i < 16 && sec[32 * i] != 0x00 && sec[32 * i] != 0xE5
  }

  /** `memcpy` into a buffer. */
  method Overwrite(buf: array<byte>, at: nat, bytes: seq<byte>)
    requires at + |bytes| <= buf.Length
    modifies buf
    ensures buf[..] == Splice(old(buf[..]), at, bytes)
  {
    forall i | 0 <= i < |bytes| {
      buf[at + i] := bytes[i];
    }
    ghost var want := Splice(old(buf[..]), at, bytes);
    forall i | 0 <= i < buf.Length ensures buf[i] == want[i] {
      if at <= i < at + |bytes| {
        assert buf[at + (i - at)] == bytes[i - at];
      }
    }
  }

  /** A 32-bit size as the C `int` it is returned as. */
  function AsInt(n: nat): int {
    if n < 0x8000_0000 then n else n - TWO32
  }

  ghost function Min(a: nat, b: nat): nat {
    if a < b then a else b
  }

  /** A boot sector `fat32_init` accepts. */
  predicate Bootable(b: Sector) {
    b[510] == 0x55 && b[511] == 0xAA && Le16(b, 11) == 512 && b[13] != 0 && Le32(b, 36) != 0
  }

  /** The parameters a boot sector records; `limit` is where the disk ends, which the driver does not look at. */
  function BootGeometry(b: Sector, limit: nat): Geometry {
    Geometry(b[13], Le16(b, 14), b[16], Le32(b, 36), Le32(b, 44), limit)
  }

  /** An accepted boot sector with the parameters `g`, byte by byte. */
  predicate BootBytes(b: Sector, g: Geometry) {
    && b[510] == 0x55 && b[511] == 0xAA && b[11] == 0 && b[12] == 2 && b[13] != 0 && g.fatSize != 0
    && g.sectorsPerCluster == b[13] && g.numFats == b[16]
    && g.reservedSectors == b[14] as int + 0x100 * b[15] as int
    && g.fatSize == b[36] as int + 0x100 * b[37] as int + 0x1_0000 * b[38] as int + 0x100_0000 * b[39] as int
    && g.rootCluster == b[44] as int + 0x100 * b[45] as int + 0x1_0000 * b[46] as int + 0x100_0000 * b[47] as int
  }

  /** What is accepted is what the bytes say. */
  lemma AcceptedBytes(b: Sector, limit: nat)
    ensures Bootable(b) <==> BootBytes(b, BootGeometry(b, limit))
  {
  }

  class Driver {
    var mounted: bool
    var g: Geometry
    var disk: Disk
    const sectorBuf: array<byte>
    const workBuf: array<byte>

    /** When set, no write to a sector that exists fails. */
    const reliable: bool

    /** The disk without its byte layout. */
    ghost var vol: Volume
    /** The clusters of the root directory. */
    ghost var rootChain: seq<nat>
    /** The abstract value: what every 8.3 name in the root directory stands for. */
    ghost var files: Files
    /** The disk as it was when the volume was mounted. */
    ghost var origin: Disk

    ghost predicate Sized()
      reads `g, `disk, `vol
    {
      && |vol.fats| == g.numFats >= 1 && |vol.clusters| == g.clusterLimit
      && 2 < g.clusterLimit <= g.EntryCount() <= FAT_EOC && g.sectorsPerCluster >= 1
      && (forall i :: 0 <= i < |vol.fats| ==> |vol.fats[i]| == g.EntryCount())
      && (forall c :: 2 <= c < g.clusterLimit ==> |vol.clusters[c]| == g.sectorsPerCluster)
    }

    /** Nothing outside the volume changed since it was mounted. */
    ghost predicate Mapped()
      reads `g, `disk, `vol, `origin
    {
      Fits(g, disk) && vol == View(g, disk) && OutsideKept(g, origin, disk)
    }

    ghost predicate Ready()
      reads `g, `disk, `vol, `origin
    {
      && sectorBuf.Length == 512 && workBuf.Length == 512 && sectorBuf != workBuf
      && Sized() && Mapped()
    }

    // The disk.

    method ReadSector(lba: nat, buf: array<byte>) returns (ok: bool)
      requires buf.Length == 512
      modifies buf
      ensures ok <==> lba < |disk|
      ensures ok ==> buf[..] == disk[lba]
    {
      if lba >= |disk| {
        return false;
      }
      forall i | 0 <= i < 512 {
        buf[i] := disk[lba][i];
      }
      assert buf[..] == disk[lba];
      return true;
    }

    method WriteSector(lba: nat, buf: array<byte>) returns (ok: bool)
      requires buf.Length == 512
      modifies this`disk
      ensures ok ==> lba < |old(disk)| && disk == old(disk)[lba := buf[..]]
      ensures !ok ==> disk == old(disk)
      ensures reliable && lba < |old(disk)| ==> ok
    {
      if lba >= |disk| {
        return false;
      }
      if !reliable {
        ok := *;
        if !ok {
          return;
        }
      }
      disk := disk[lba := buf[..]];
      return true;
    }

    // The table.

    lemma EntryOnDisk(copy: nat, c: nat)
      requires Ready() && copy < g.numFats && c < g.EntryCount()
      ensures g.FatLba(copy, c / 128) < |disk|
      ensures vol.fats[copy][c] == EntryAt(disk[g.FatLba(copy, c / 128)], c % 128)
    {
      FatCopyAt(g, disk, copy, c);
    }

    /** `fat_next_cluster` */
    method NextCluster(c: nat) returns (next: nat)
      requires Ready() && c < g.EntryCount()
      modifies sectorBuf
      ensures next == vol.fats[0][c]
    {
      hide Mapped;
      var offset := c * 4;
      var sector := g.reservedSectors + offset / 512;
      assert sector == g.FatLba(0, c / 128) && offset % 512 == 4 * (c % 128);
      EntryOnDisk(0, c);
      var ok := ReadSector(sector, sectorBuf);
      if !ok {
        return FAT_EOC;
      }
      return Le32(sectorBuf[..], offset % 512) % TWO28;
    }

    lemma EntryWritten(copy: nat, c: nat, value: nat)
      requires Ready() && copy < g.numFats && c < g.EntryCount() && value < TWO28
      ensures var lba := g.FatLba(copy, c / 128);
              && lba < |disk|
              && var d' := disk[lba := PutEntry(disk[lba], c % 128, value)];
                 Fits(g, d') && View(g, d') == SetCopy(vol, copy, c, value) && OutsideKept(g, origin, d')
    {
      FatCopyAt(g, disk, copy, c);
      FatSectorWrite(g, disk, copy, c, value);
      var lba := g.FatLba(copy, c / 128);
      OutsideKeptSince(g, origin, disk, disk[lba := PutEntry(disk[lba], c % 128, value)]);
    }

    /** One copy's turn in `fat_set_entry`; the four reserved bits of the entry are kept. */
    method SetEntryInCopy(copy: nat, c: nat, value: nat) returns (ok: bool)
      requires Ready() && copy < g.numFats && c < g.EntryCount() && value < TWO28
      modifies this`disk, this`vol, workBuf
      ensures Ready()
      ensures vol == if ok then SetCopy(old(vol), copy, c, value) else old(vol)
      ensures reliable ==> ok
    {
      hide View, Fits, EntryAt, Le32, Put32, OutsideKept;
      var offset := c * 4;
      var lba := g.reservedSectors + copy * g.fatSize + offset / 512;
      assert lba == g.FatLba(copy, c / 128) && offset % 512 == 4 * (c % 128);
      EntryWritten(copy, c, value);
      hide Geometry.FatLba;
      ok := ReadSector(lba, workBuf);
      if !ok {
        return;
      }
      var existing := Le32(workBuf[..], offset % 512);
      Overwrite(workBuf, offset % 512, Put32(existing / TWO28 * TWO28 + value));
      assert workBuf[..] == PutEntry(disk[lba], c % 128, value);
      ok := WriteSector(lba, workBuf);
      if ok {
        vol := SetCopy(vol, copy, c, value);
      }
    }

    /** `fat_set_entry`: the copies are written in order, so a failure leaves the first `done` set. */
    method SetEntry(c: nat, value: nat) returns (ok: bool, ghost done: nat)
      requires Ready() && c < g.EntryCount() && value < TWO28
      modifies this`disk, this`vol, workBuf
      ensures Ready() && done <= g.numFats
      ensures vol == SetFirst(old(vol), done, c, value)
      ensures ok ==> done == g.numFats
      ensures reliable ==> ok
    {
      hide Mapped;
      var copy := 0;
      while copy < g.numFats
        invariant Ready() && copy <= g.numFats
        invariant vol == SetFirst(old(vol), copy, c, value)
      {
        ok := SetEntryInCopy(copy, c, value);
        if !ok {
          return false, copy;
        }
        SetFirstNext(old(vol), copy, c, value);
        copy := copy + 1;
      }
      return true, copy;
    }

    /** The scan of one table sector: its lowest free cluster, 0 if there is none. */
    method FreeEntryIn(sector: nat) returns (c: nat)
      requires Ready() && sector < g.fatSize
      modifies workBuf
      ensures c < g.EntryCount()
      ensures c != 0 ==> 2 <= c && 128 * sector <= c && vol.fats[0][c] == 0
      ensures forall x :: 2 <= x && 128 * sector <= x < (if c == 0 then 128 * sector + 128 else c) ==>
                vol.fats[0][x] != 0
    {
      hide Mapped, EntryAt;
      var lba := g.reservedSectors + sector;
      TableEntry(sector, 0);
      var ok := ReadSector(lba, workBuf);
      var i := 0;
      while i < 128
        invariant i <= 128 && workBuf[..] == disk[lba]
        invariant forall x :: 2 <= x && 128 * sector <= x < 128 * sector + i ==> vol.fats[0][x] != 0
      {
        var cluster := sector * 128 + i;
        TableEntry(sector, i);
        if cluster >= 2 {
          var value := EntryAt(workBuf[..], i);
          if value == 0 {
            return cluster;
          }
        }
        i := i + 1;
      }
      return 0;
    }

    lemma TableEntry(sector: nat, i: nat)
      requires Ready() && sector < g.fatSize && i < 128
      ensures g.reservedSectors + sector < |disk| && 128 * sector + 128 <= |vol.fats[0]|
      ensures vol.fats[0][128 * sector + i] == EntryAt(disk[g.reservedSectors + sector], i)
    {
      hide EntryAt, Mapped;
      var c := 128 * sector + i;
      assert c / 128 == sector && c % 128 == i;
      EntryOnDisk(0, c);
    }

    /**
     * `fat_alloc_cluster`: takes the lowest free cluster. On failure at most one free entry was
     * touched; `touched` names it.
     */
    method AllocCluster() returns (c: nat, ghost touched: set<nat>)
      requires Ready()
      modifies this`disk, this`vol, workBuf
      ensures Ready()
      ensures touched <= FreeBelow(old(vol).fats[0], g.EntryCount())
      ensures TablesDifferOnlyAt(old(vol), vol, touched)
      ensures c != 0 ==>
                && touched == {c} && vol == SetFirst(old(vol), g.numFats, c, FAT_LAST)
                && forall x :: x in FreeBelow(old(vol).fats[0], g.EntryCount()) ==> c <= x
      ensures reliable && c == 0 ==> vol == old(vol) && FreeBelow(old(vol).fats[0], g.EntryCount()) == {}
    {
      hide Mapped, TablesDifferOnlyAt;
      var sector := 0;
      while sector < g.fatSize
        invariant Ready() && vol == old(vol) && sector <= g.fatSize
        invariant forall x :: 2 <= x < 128 * sector ==> vol.fats[0][x] != 0
      {
        c := FreeEntryIn(sector);
        if c != 0 {
          touched := {c};
          var ok;
          ghost var done;
          ok, done := SetEntry(c, FAT_LAST);
          SetFirstDiffers(old(vol), done, c, FAT_LAST);
          if !ok {
            c := 0;
          }
          return;
        }
        sector := sector + 1;
      }
      SameTables(vol);
      return 0, {};
    }

    /**
     * `fat_free_chain`: as long as the walk from `first` stays in the table, be it cyclic or
     * cross-linked, the loop stops, and it clears exactly the entries reachable from `first`.
     */
    method FreeChain(first: nat) returns (ok: bool)
      requires Ready() && WalkInRange(vol.fats[0], first)
      modifies this`disk, this`vol, workBuf, sectorBuf
      ensures Ready()
      ensures TablesDifferOnlyAt(old(vol), vol, ReachSet(old(vol).fats[0], first))
      ensures ok ==> Cleared(old(vol), vol, ReachSet(old(vol).fats[0], first))
      ensures reliable ==> ok
    {
      hide Mapped, TablesDifferOnlyAt, Cleared, Visited, Walk, ReachSet;
      ghost var v := vol;
      ghost var fat := v.fats[0];
      ghost var k := 0;
      var cluster: nat := first;
      NothingCleared(v, first);
      WalkStart(fat, first);
      while cluster >= 2 && cluster < FAT_EOC
        invariant Ready() && Cleared(v, vol, Visited(fat, first, k))
        invariant cluster < g.EntryCount() || cluster >= FAT_EOC
        invariant Progress(fat, first, k, cluster)
        decreases NonZero(vol.fats[0]), if cluster == 0 then 0 else 1
      {
        ghost var before := vol;
        var next := NextCluster(cluster);
        ghost var done;
        ok, done := SetEntry(cluster, 0);
        FreeStep(v, before, first, k, cluster, done);
        assert InTable(fat, Walk(fat, first, k + 1));
        if !ok {
          return;
        }
        NonZeroShrinks(before.fats[0], cluster);
        k := if cluster in Visited(fat, first, k) then k else k + 1;
        cluster := next;
      }
      FreeDone(v, vol, first, k, cluster);
      return true;
    }

    // Clusters.

    lemma SectorOnDisk(c: nat, s: nat)
      requires Ready() && 2 <= c < g.clusterLimit && s < g.sectorsPerCluster
      ensures g.Lba(c, s) < |disk| && vol.clusters[c][s] == disk[g.Lba(c, s)]
    {
      LbaBefore(g, c, s, g.clusterLimit);
    }

    lemma SectorWritten(c: nat, s: nat, sec: Sector)
      requires Ready() && 2 <= c < g.clusterLimit && s < g.sectorsPerCluster
      ensures g.Lba(c, s) < |disk|
      ensures Fits(g, disk[g.Lba(c, s) := sec])
      ensures View(g, disk[g.Lba(c, s) := sec]) == SetSector(vol, c, s, sec)
      ensures OutsideKept(g, origin, disk[g.Lba(c, s) := sec])
    {
      hide View, Fits, OutsideKept;
      SectorOnDisk(c, s);
      DataSectorWrite(g, disk, c, s, sec);
      OutsideKeptSince(g, origin, disk, disk[g.Lba(c, s) := sec]);
    }

    lemma SectorMissing(c: nat, s: nat)
      requires Ready() && g.clusterLimit <= c < g.EntryCount()
      ensures g.Lba(c, s) >= |disk|
    {
      LbaOffDisk(g, disk, c, s);
    }

    /** One sector of cluster `c`, on the disk or off it. */
    method PutSector(c: nat, s: nat, sec: Sector) returns (ok: bool)
      requires Ready() && 2 <= c < g.EntryCount() && s < g.sectorsPerCluster
      modifies this`disk, this`vol, workBuf
      ensures Ready()
      ensures ok ==> c < g.clusterLimit && vol == SetSector(old(vol), c, s, sec)
      ensures !ok ==> vol == old(vol)
      ensures reliable ==> (ok <==> c < g.clusterLimit)
    {
      hide View, Fits, OutsideKept;
      Overwrite(workBuf, 0, sec);
      assert workBuf[..] == sec;
      if c < g.clusterLimit {
        SectorWritten(c, s, sec);
      } else {
        SectorMissing(c, s);
      }
      ok := WriteSector(g.Lba(c, s), workBuf);
      if ok {
        vol := SetSector(vol, c, s, sec);
      }
    }

    /** The sector loop of `fat32_write_file`: the part of `data` from `at` on that fits the cluster. */
    method WriteCluster(c: nat, data: seq<byte>, at: nat) returns (ok: bool, written: nat)
      requires Ready() && 2 <= c < g.EntryCount() && at < |data|
      modifies this`disk, this`vol, workBuf
      ensures Ready()
      ensures OnlyCluster(old(vol), vol, c)
      ensures ok ==> c < g.clusterLimit && Holding(vol, c, g.sectorsPerCluster, data, at)
      ensures ok ==>
              written == if at + 512 * g.sectorsPerCluster < |data| then at + 512 * g.sectorsPerCluster else |data|
      ensures reliable ==> (ok <==> c < g.clusterLimit)
    {
      hide Mapped, Holding;
      var s := 0;
      written := at;
      HoldingNothing(vol, c, data, at);
      while s < g.sectorsPerCluster && written < |data|
        invariant Ready() && s <= g.sectorsPerCluster && OnlyCluster(old(vol), vol, c)
        invariant written == if at + 512 * s < |data| then at + 512 * s else |data|
        invariant s > 0 ==> c < g.clusterLimit
        invariant c < g.clusterLimit ==> Holding(vol, c, s, data, at)
      {
        ghost var before := vol;
        ok := PutSector(c, s, Chunk(data, written));
        if !ok {
          return;
        }
        HoldingNext(before, c, s, data, at);
        OnlyClusterSet(old(vol), before, c, s, Chunk(data, written));
        s := s + 1;
        written := if |data| - written > 512 then written + 512 else |data|;
      }
      HoldingRest(vol, c, s, data, at);
      ok := true;
    }

    /** The loop that clears a new directory cluster. */
    method ZeroCluster(c: nat) returns (ok: bool)
      requires Ready() && 2 <= c < g.EntryCount()
      modifies this`disk, this`vol, workBuf
      ensures Ready()
      ensures OnlyCluster(old(vol), vol, c)
      ensures ok ==> c < g.clusterLimit && Zeroed(vol, c, g.sectorsPerCluster)
      ensures reliable ==> (ok <==> c < g.clusterLimit)
    {
      hide Mapped, Zeroed;
      var s := 0;
      ZeroedNothing(vol, c);
      while s < g.sectorsPerCluster
        invariant Ready() && s <= g.sectorsPerCluster && OnlyCluster(old(vol), vol, c)
        invariant s > 0 ==> c < g.clusterLimit
        invariant c < g.clusterLimit ==> Zeroed(vol, c, s)
      {
        ghost var before := vol;
        ok := PutSector(c, s, ZeroSector());
        if !ok {
          return;
        }
        ZeroedNext(before, c, s);
        OnlyClusterSet(old(vol), before, c, s, ZeroSector());
        s := s + 1;
      }
      ok := true;
    }

    // The root directory.

    /** The invariant, slot `hole` exempted. */
    ghost predicate Holds(hole: int)
      reads this
    {
      Ready() && Inv(vol, g.sectorsPerCluster, g.rootCluster, rootChain, files, hole)
    }

    ghost predicate Valid()
      reads this
    {
      Holds(NO_HOLE)
    }

    /**
     * `fat32_init`: mounts if and only if the boot sector can be read and is accepted. On a disk that satisfies
     * the invariant, with `chain` as its root directory and `contents` as its files, the driver is then valid.
     */
    method Mount(present: bool, limit: nat, ghost chain: seq<nat>, ghost contents: Files) returns (ok: bool)
      requires sectorBuf.Length == 512 && workBuf.Length == 512 && sectorBuf != workBuf
      modifies this`mounted, this`g, this`vol, this`rootChain, this`files, this`origin, sectorBuf
      ensures ok == mounted && (ok <==> present && |disk| > 0 && Bootable(disk[0]))
      ensures ok ==> g == BootGeometry(disk[0], limit) && BootBytes(disk[0], g)
      ensures ok && Fits(g, disk)
              && Inv(View(g, disk), g.sectorsPerCluster, g.rootCluster, chain, contents, NO_HOLE) ==>
                Valid() && vol == View(g, disk) && rootChain == chain && files == contents
    {
      hide View, Inv, Le16, Le32, BootBytes;
      mounted := false;
      if !present {
        return false;
      }
      ok := ReadSector(0, sectorBuf);
      if !ok || sectorBuf[510] != 0x55 || sectorBuf[511] != 0xAA {
        return false;
      }
      var b: Sector := sectorBuf[..];
      if Le16(b, 11) != 512 {
        return false;
      }
      g := Geometry(b[13], Le16(b, 14), b[16], Le32(b, 36), Le32(b, 44), limit);
      if g.sectorsPerCluster == 0 || g.fatSize == 0 {
        return false;
      }
      mounted := true;
      AcceptedBytes(b, limit);
      if Fits(g, disk) {
        vol, rootChain, files, origin := View(g, disk), chain, contents, disk;
        ViewSized(g, disk);
      }
      return true;
    }

    lemma ViewSized(g: Geometry, d: Disk)
      requires Fits(g, d)
      ensures var v := View(g, d);
              && (forall i :: 0 <= i < |v.fats| ==> |v.fats[i]| == g.EntryCount())
              && (forall c :: 2 <= c < g.clusterLimit ==> |v.clusters[c]| == g.sectorsPerCluster)
    {
    }

    ghost function DirLocs(): seq<Loc>
      reads this
    {
      Locs(rootChain, g.sectorsPerCluster)
    }

    ghost function DirSlots(): (slots: seq<seq<byte>>)
      reads this
      ensures Entries(slots)
    {
      RootSlots(vol, g.sectorsPerCluster, rootChain)
    }

    /** Slot `k` of the root directory is the 32 bytes at `off` of sector `lba`. */
    ghost predicate Located(k: nat, lba: nat, off: nat)
      reads this
    {
      && Readable(vol, DirLocs()) && k < 16 * |DirLocs()| && off == 32 * (k % 16)
      && DirLocs()[k / 16].cluster >= 2
      && lba == g.Lba(DirLocs()[k / 16].cluster, DirLocs()[k / 16].sector)
    }

    /** Sector `s` of the `ci`-th cluster of the directory: its number, its contents, its place. */
    ghost function DirLba(ci: nat, s: nat): nat
      reads this
    {
      if ci < |rootChain| && rootChain[ci] >= 2 then g.Lba(rootChain[ci], s) else 0
    }

    ghost function DirSec(ci: nat, s: nat): Sector
      reads this
    {
      if DirLba(ci, s) < |disk| then disk[DirLba(ci, s)] else ZeroSector()
    }

    ghost function SectorIndex(ci: nat, s: nat): nat
      reads this
    {
      if ci <= |rootChain| then |Locs(rootChain[..ci], g.sectorsPerCluster)| + s else 0
    }

    lemma RootCluster(hole: int, ci: nat)
      requires Holds(hole) && ci < |rootChain|
      ensures 2 <= rootChain[ci] < g.clusterLimit
      ensures if ci + 1 < |rootChain| then vol.fats[0][rootChain[ci]] == rootChain[ci + 1]
              else vol.fats[0][rootChain[ci]] >= FAT_EOC
    {
      hide Directory, Mapped, Disjoint;
    }

    lemma RootStart(hole: int)
      requires Holds(hole)
      ensures |rootChain| > 0 && rootChain[0] == g.rootCluster && SectorIndex(0, 0) == 0
    {
      hide Directory, Mapped, Disjoint;
    }

    lemma DirSector(hole: int, ci: nat, s: nat)
      requires Holds(hole) && ci < |rootChain| && s < g.sectorsPerCluster
      ensures Readable(vol, DirLocs()) && 2 <= rootChain[ci] < g.clusterLimit
      ensures DirLba(ci, s) == g.Lba(rootChain[ci], s) < |disk|
      ensures SectorIndex(ci, s) < |DirLocs()| && DirLocs()[SectorIndex(ci, s)] == Loc(rootChain[ci], s)
      ensures SectorIndex(ci + 1, 0) == SectorIndex(ci, 0) + g.sectorsPerCluster
    {
      hide Mapped, Inv, Locs, RootSlots;
      var spc := g.sectorsPerCluster;
      InvDirectory(vol, spc, g.rootCluster, rootChain, files, hole);
      RootCluster(hole, ci);
      LocAt(rootChain, ci, s, spc);
      SectorOnDisk(rootChain[ci], s);
    }

    /** The slots a directory sector holds. */
    lemma DirSlot(hole: int, ci: nat, s: nat, k: nat)
      requires Holds(hole) && ci < |rootChain| && s < g.sectorsPerCluster && k / 16 == SectorIndex(ci, s)
      ensures k < |DirSlots()| && DirSlots()[k] == DirSec(ci, s)[32 * (k % 16)..32 * (k % 16) + 32]
      ensures Located(k, DirLba(ci, s), 32 * (k % 16))
    {
      hide Mapped, Inv, Locs, RootSlots;
      DirSector(hole, ci, s);
      SectorOnDisk(rootChain[ci], s);
      SlotAt(vol, g.sectorsPerCluster, rootChain, k);
    }

    /** The scan of the sector in `sectorBuf` for `target`. */
    method ScanSector(target: Name) returns (r: Scan)
      requires sectorBuf.Length == 512
      ensures Scanned(sectorBuf[..], r, target)
    {
      hide Live;
      ghost var sec: Sector := sectorBuf[..];
      var off := 0;
      while off < 512
        invariant off % 32 == 0 && 0 <= off <= 512
        invariant forall i :: 0 <= i < off / 32 ==> Passed(sec, i, target)
      {
        var e := sectorBuf[off..off + 32];
        assert e == sec[off..off + 32] == sec[32 * (off / 32)..32 * (off / 32) + 32];
        if e[0] == 0x00 {
          return EndOfDirectory;
        }
        if Live(e) && e[..11] == target {
          return Found(off);
        }
        off := off + 32;
      }
      return Absent;
    }

    /** The `i`-th slot of a directory sector. */
    lemma SlotInSector(ci: nat, s: nat, i: nat)
      requires Valid() && ci < |rootChain| && s < g.sectorsPerCluster && i < 16
      ensures var k := 16 * SectorIndex(ci, s) + i;
              && k < |DirSlots()| && DirSlots()[k] == DirSec(ci, s)[32 * i..32 * i + 32]
              && Located(k, DirLba(ci, s), 32 * i)
    {
      hide Mapped, Inv, Locs, RootSlots, DirSlots, DirSec, DirLba, SectorIndex, Located;
      var k := 16 * SectorIndex(ci, s) + i;
      assert k / 16 == SectorIndex(ci, s) && k % 16 == i;
      DirSlot(NO_HOLE, ci, s, k);
    }

    /** Passing `count` entries of a directory sector extends the part known not to hold `target`. */
    lemma {:induction false} PassSector(ci: nat, s: nat, target: Name, count: nat)
      requires Valid() && ci < |rootChain| && s < g.sectorsPerCluster && count <= 16
      requires NotIn(DirSlots(), 16 * SectorIndex(ci, s), target)
      requires forall i :: 0 <= i < count ==> Passed(DirSec(ci, s), i, target)
      ensures NotIn(DirSlots(), 16 * SectorIndex(ci, s) + count, target)
    {
      hide Valid, DirSlots, DirSec, DirLba, SectorIndex, Located, Match;
      if count > 0 {
        PassSector(ci, s, target, count - 1);
        assert Passed(DirSec(ci, s), count - 1, target);
        SlotInSector(ci, s, count - 1);
      }
    }

    /** A match decides where the name is. */
    lemma ScanFound(ci: nat, s: nat, target: Name, off: nat)
      requires Valid() && ci < |rootChain| && s < g.sectorsPerCluster
      requires MatchAt(DirSec(ci, s), off, target)
      ensures target in files && Located(files[target].slot, DirLba(ci, s), off)
    {
      hide Mapped, Inv, Locs, RootSlots, Match, ZeroTail, Indexed;
      var k := 16 * SectorIndex(ci, s) + off / 32;
      InvDirectory(vol, g.sectorsPerCluster, g.rootCluster, rootChain, files, NO_HOLE);
      SlotInSector(ci, s, off / 32);
      Hit(DirSlots(), files, k, target);
    }

    /** An end mark before any match decides that there is none. */
    lemma ScanEnded(ci: nat, s: nat, target: Name, j: nat)
      requires Valid() && ci < |rootChain| && s < g.sectorsPerCluster && j < 16
      requires NotIn(DirSlots(), 16 * SectorIndex(ci, s), target)
      requires DirSec(ci, s)[32 * j] == 0
      requires forall i :: 0 <= i < j ==> Passed(DirSec(ci, s), i, target)
      ensures target !in files
    {
      hide Mapped, Inv, Locs, RootSlots, Match, ZeroTail, Indexed, NotIn, Passed, Located;
      var k := 16 * SectorIndex(ci, s) + j;
      InvDirectory(vol, g.sectorsPerCluster, g.rootCluster, rootChain, files, NO_HOLE);
      PassSector(ci, s, target, j);
      SlotInSector(ci, s, j);
      Miss(DirSlots(), files, k, target);
    }

    lemma ScanStep(ci: nat, s: nat, target: Name, r: Scan)
      requires Valid() && ci < |rootChain| && s < g.sectorsPerCluster
      requires NotIn(DirSlots(), 16 * SectorIndex(ci, s), target)
      requires Scanned(DirSec(ci, s), r, target)
      ensures match r
              case Found(off) => target in files && Located(files[target].slot, DirLba(ci, s), off)
              case EndOfDirectory => target !in files
              case Absent => NotIn(DirSlots(), 16 * SectorIndex(ci, s) + 16, target)
    {
      hide Valid, NotIn, Passed, Located, MatchAt, DirSlots, DirSec, DirLba, SectorIndex;
      match r
      case Found(off) =>
        ScanFound(ci, s, target, off);
      case EndOfDirectory =>
        var sec := DirSec(ci, s);
        var j: nat :| j < 16 && sec[32 * j] == 0 && forall i :: 0 <= i < j ==> Passed(sec, i, target);
        ScanEnded(ci, s, target, j);
      case Absent =>
        PassSector(ci, s, target, 16);
    }

    /** The scan of one directory cluster. */
    method ScanCluster(cluster: nat, target: Name, ghost ci: nat) returns (r: Scan, lba: nat)
      requires Valid() && ci < |rootChain| && cluster == rootChain[ci]
      requires NotIn(DirSlots(), 16 * SectorIndex(ci, 0), target)
      modifies sectorBuf
      ensures match r
              case Found(off) =>
                && target in files && Located(files[target].slot, lba, off)
                && lba < |disk| && sectorBuf[..] == disk[lba]
              case EndOfDirectory => target !in files
              case Absent => NotIn(DirSlots(), 16 * SectorIndex(ci + 1, 0), target)
    {
      hide Mapped, Inv, Locs, DirSlots, NotIn, Scanned, Located, Geometry.Lba;
      DirSector(NO_HOLE, ci, 0);
      var s := 0;
      while s < g.sectorsPerCluster
        invariant s <= g.sectorsPerCluster
        invariant NotIn(DirSlots(), 16 * SectorIndex(ci, s), target)
      {
        lba := g.Lba(cluster, s);
        DirSector(NO_HOLE, ci, s);
        var ok := ReadSector(lba, sectorBuf);
        r := ScanSector(target);
        assert DirSec(ci, s) == sectorBuf[..];
        ScanStep(ci, s, target, r);
        if !r.Absent? {
          return;
        }
        s := s + 1;
      }
      return Absent, 0;
    }

    /** `find_entry_location`: finds the slot of every name that has one, and no other. */
    method FindEntryLocation(name: seq<byte>) returns (found: bool, lba: nat, off: nat)
      requires Valid()
      modifies sectorBuf
      ensures found <==> ShortName(name) in files
      ensures found ==> Located(files[ShortName(name)].slot, lba, off)
      ensures found ==> lba < |disk| && sectorBuf[..] == disk[lba]
    {
      hide Mapped, Inv, Locs, RootSlots, NotIn, Located, ZeroTail, Indexed;
      var target11 := ToShortName(name);
      var target := target11[..];
      InvDirectory(vol, g.sectorsPerCluster, g.rootCluster, rootChain, files, NO_HOLE);
      RootStart(NO_HOLE);
      RootCluster(NO_HOLE, 0);
      NothingPassed(DirSlots(), target);
      var cluster: nat := g.rootCluster;
      ghost var ci := 0;
      while cluster >= 2 && cluster < FAT_EOC
        invariant ci <= |rootChain|
        invariant if ci < |rootChain| then 2 <= cluster == rootChain[ci] < g.clusterLimit else cluster >= FAT_EOC
        invariant NotIn(DirSlots(), 16 * SectorIndex(ci, 0), target)
        decreases |rootChain| - ci
      {
        var r;
        r, lba := ScanCluster(cluster, target, ci);
        match r {
          case Found(o) => return true, lba, o;
          case EndOfDirectory => return false, 0, 0;
          case Absent =>
        }
        RootCluster(NO_HOLE, ci);
        if ci + 1 < |rootChain| {
          RootCluster(NO_HOLE, ci + 1);
        }
        cluster := NextCluster(cluster);
        ci := ci + 1;
      }
      assert rootChain[..ci] == rootChain;
      Miss(DirSlots(), files, 16 * SectorIndex(ci, 0), target);
      return false, 0, 0;
    }

    /** The scan of the sector in `sectorBuf` for a slot to fill; 512 when there is none. */
    method UnusedIn() returns (off: nat)
      requires sectorBuf.Length == 512
      ensures off <= 512 && off % 32 == 0
      ensures forall i :: 0 <= i < off / 32 ==> EntryUsed(sectorBuf[..], i)
      ensures off < 512 ==> !EntryUsed(sectorBuf[..], off / 32)
    {
      ghost var sec: Sector := sectorBuf[..];
      off := 0;
      while off < 512
        invariant off % 32 == 0 && 0 <= off <= 512
        invariant forall i :: 0 <= i < off / 32 ==> EntryUsed(sec, i)
      {
        var first := sectorBuf[off];
        if first == 0x00 || first == 0xE5 {
          return;
        }
        off := off + 32;
      }
    }

    lemma {:induction false} UsedSector(ci: nat, s: nat, count: nat)
      requires Valid() && ci < |rootChain| && s < g.sectorsPerCluster && count <= 16
      requires AllUsed(DirSlots(), 16 * SectorIndex(ci, s))
      requires forall i :: 0 <= i < count ==> EntryUsed(DirSec(ci, s), i)
      ensures AllUsed(DirSlots(), 16 * SectorIndex(ci, s) + count)
    {
      hide Valid, DirSlots, DirSec, DirLba, SectorIndex, Located;
      if count > 0 {
        UsedSector(ci, s, count - 1);
        assert EntryUsed(DirSec(ci, s), count - 1);
        SlotInSector(ci, s, count - 1);
      }
    }

    lemma UnusedSlot(ci: nat, s: nat, i: nat)
      requires Valid() && ci < |rootChain| && s < g.sectorsPerCluster && i < 16
      requires !EntryUsed(DirSec(ci, s), i)
      ensures var k := 16 * SectorIndex(ci, s) + i;
              && k < |DirSlots()| && Located(k, DirLba(ci, s), 32 * i)
              && (DirSlots()[k][0] == 0x00 || DirSlots()[k][0] == 0xE5)
    {
      hide Valid, DirSlots, DirSec, DirLba, SectorIndex, Located;
      SlotInSector(ci, s, i);
    }

    /** The scan of one directory cluster for a slot to fill. */
    method UnusedInCluster(cluster: nat, ghost ci: nat) returns (found: bool, lba: nat, off: nat, ghost k: nat)
      requires Valid() && ci < |rootChain| && cluster == rootChain[ci]
      requires AllUsed(DirSlots(), 16 * SectorIndex(ci, 0))
      modifies sectorBuf
      ensures found ==> Located(k, lba, off) && k < |DirSlots()| && AllUsed(DirSlots(), k)
      ensures found ==> DirSlots()[k][0] == 0x00 || DirSlots()[k][0] == 0xE5
      ensures !found ==> AllUsed(DirSlots(), 16 * SectorIndex(ci + 1, 0))
    {
      hide Mapped, Inv, Locs, DirSlots, AllUsed, Located, EntryUsed, Geometry.Lba;
      DirSector(NO_HOLE, ci, 0);
      var s := 0;
      while s < g.sectorsPerCluster
        invariant s <= g.sectorsPerCluster
        invariant AllUsed(DirSlots(), 16 * SectorIndex(ci, s))
      {
        lba := g.Lba(cluster, s);
        DirSector(NO_HOLE, ci, s);
        var ok := ReadSector(lba, sectorBuf);
        off := UnusedIn();
        assert DirSec(ci, s) == sectorBuf[..];
        UsedSector(ci, s, off / 32);
        if off < 512 {
          k := 16 * SectorIndex(ci, s) + off / 32;
          UnusedSlot(ci, s, off / 32);
          return true, lba, off, k;
        }
        s := s + 1;
      }
      return false, 0, 0, 0;
    }

    /** The scan of `find_free_dir_slot`; without a slot to fill, the last cluster of the directory. */
    method ScanForSlot() returns (found: bool, lba: nat, off: nat, last: nat, ghost k: nat)
      requires Valid()
      modifies sectorBuf
      ensures found <==> !Full(DirSlots())
      ensures found ==> Located(k, lba, off) && Fillable(DirSlots(), k) && !Live(DirSlots()[k])
      ensures found ==> LowestUnused(DirSlots(), k)
      ensures !found ==> |rootChain| > 0 && last == rootChain[|rootChain| - 1]
    {
      hide Mapped, Inv, Locs, RootSlots, AllUsed, Located;
      InvDirectory(vol, g.sectorsPerCluster, g.rootCluster, rootChain, files, NO_HOLE);
      RootStart(NO_HOLE);
      RootCluster(NO_HOLE, 0);
      NothingUsed(DirSlots());
      var cluster: nat := g.rootCluster;
      last := cluster;
      ghost var ci := 0;
      while cluster >= 2 && cluster < FAT_EOC
        invariant ci <= |rootChain| && last == rootChain[if ci == 0 then 0 else ci - 1]
        invariant if ci < |rootChain| then 2 <= cluster == rootChain[ci] < g.clusterLimit else cluster >= FAT_EOC
        invariant AllUsed(DirSlots(), 16 * SectorIndex(ci, 0))
        decreases |rootChain| - ci
      {
        last := cluster;
        found, lba, off, k := UnusedInCluster(cluster, ci);
        if found {
          FirstUnused(DirSlots(), k);
          return;
        }
        RootCluster(NO_HOLE, ci);
        if ci + 1 < |rootChain| {
          RootCluster(NO_HOLE, ci + 1);
        }
        cluster := NextCluster(cluster);
        ci := ci + 1;
      }
      assert rootChain[..ci] == rootChain;
      return false, 0, 0, last, 0;
    }

    // Growing the directory.

    /** A cluster that exists is free. */
    ghost predicate RoomOnDisk()
      reads this
    {
      vol.fats != [] && FreeBelow(vol.fats[0], g.clusterLimit) != {}
    }

    /** Cluster `c`, free in `v`, was taken and linked behind `last` in every table. */
    ghost predicate TookBehind(v: Volume, last: nat, c: nat)
      reads this
    {
      && v.fats != [] && c in FreeBelow(v.fats[0], g.clusterLimit)
      && (forall i :: 0 <= i < |v.fats| ==> c < |v.fats[i]| && last < |v.fats[i]|)
      && vol.fats == TakeAndLink(v, c, last).fats
    }

    /** The steps that put a zeroed cluster behind `last`. */
    method TakeBehind(last: nat) returns (ok: bool, c: nat)
      requires Ready() && last < g.EntryCount()
      modifies this`disk, this`vol, workBuf
      ensures Ready()
      ensures ok ==> TookBehind(old(vol), last, c)
      ensures ok ==> OnlyCluster(TakeAndLink(old(vol), c, last), vol, c) && Zeroed(vol, c, g.sectorsPerCluster)
      ensures reliable ==> (ok <==> old(RoomOnDisk()))
      ensures Strayed(old(vol), vol, last)
      ensures reliable && !ok ==> GrowthEnded(old(vol), vol, g.clusterLimit, last)
    {
      hide Mapped, TablesDifferOnlyAt, SetFirst, OnlyCluster, Zeroed, Strayed, Severed;
      ghost var touched;
      c, touched := AllocCluster();
      if c == 0 {
        assert reliable ==> FreeBelow(old(vol).fats[0], g.clusterLimit) <= FreeBelow(old(vol).fats[0], g.EntryCount());
        StrayedFree(old(vol), vol, touched, last);
        return false, 0;
      }
      LowestFree(old(vol).fats[0], g.clusterLimit, c);
      ghost var done;
      ok, done := SetEntry(last, c);
      if !ok {
        OnlyClusterSelf(vol, c);
        StrayedLink(old(vol), done, c, last, vol);
        return;
      }
      assert vol == TakeAndLink(old(vol), c, last);
      ok := ZeroCluster(c);
      StrayedLink(old(vol), g.numFats, c, last, vol);
      SameFats(TakeAndLink(old(vol), c, last), vol, c);
      if reliable && !ok {
        LinkSevers(old(vol), vol, g.clusterLimit, c, last);
      }
    }

    /** The directory went from `rc` in `v` to one cluster more, everything else kept. */
    ghost predicate GrownBy(v: Volume, rc: seq<nat>, c: nat)
      reads this
    {
      rc != [] && rootChain == rc + [c] && TookBehind(v, rc[|rc| - 1], c)
    }

    method GrowDirectory(last: nat) returns (found: bool, lba: nat, ghost k: nat, ghost grown: nat)
      requires Valid() && Full(DirSlots())
      requires |rootChain| > 0 && last == rootChain[|rootChain| - 1]
      modifies this`disk, this`vol, this`rootChain, workBuf
      ensures found ==> Valid() && Located(k, lba, 0) && Fillable(DirSlots(), k) && !Live(DirSlots()[k])
      ensures found ==> GrownBy(old(vol), old(rootChain), grown)
      ensures found ==> k == |old(DirSlots())| && Extended(old(DirSlots()), DirSlots(), 16 * g.sectorsPerCluster)
      ensures reliable ==> (found <==> old(RoomOnDisk()))
      ensures Ready() && Strayed(old(vol), vol, last) && (!found ==> rootChain == old(rootChain))
      ensures reliable && !found ==> GrowthEnded(old(vol), vol, g.clusterLimit, last)
    {
      hide Mapped, Inv, Locs, RootSlots, TakeAndLink, OnlyCluster, Zeroed, Full, Readable, Fillable, Live, FreeBelow;
      hide Geometry.Lba, Strayed, GrowthEnded, Extended;
      RootCluster(NO_HOLE, |rootChain| - 1);
      InvDirectory(vol, g.sectorsPerCluster, g.rootCluster, rootChain, files, NO_HOLE);
      var c;
      found, c := TakeBehind(last);
      if !found {
        return false, 0, 0, 0;
      }
      GrowCommit(old(vol), vol, g.sectorsPerCluster, g.rootCluster, rootChain, files, c);
      k := 16 * |DirLocs()|;
      rootChain := rootChain + [c];
      assert Ready();
      return true, g.Lba(c, 0), k, c;
    }

    /**
     * `find_free_dir_slot`: the first slot to fill, or the first slot of a cluster put behind the
     * directory when every slot is in use. `grown` is that cluster, 0 when there was a slot.
     */
    method FindFreeDirSlot() returns (found: bool, lba: nat, off: nat, ghost k: nat, ghost grown: nat)
      requires Valid()
      modifies this`disk, this`vol, this`rootChain, sectorBuf, workBuf
      ensures !old(Full(DirSlots())) ==> found && grown == 0 && vol == old(vol) && rootChain == old(rootChain)
      ensures found ==> Valid() && Located(k, lba, off) && Fillable(DirSlots(), k) && !Live(DirSlots()[k])
      ensures found && old(Full(DirSlots())) ==> GrownBy(old(vol), old(rootChain), grown)
      ensures found ==> LowestUnused(old(DirSlots()), k) && Extended(old(DirSlots()), DirSlots(),
              if old(Full(DirSlots())) then 16 * g.sectorsPerCluster else 0)
      ensures reliable ==> (found <==> !old(Full(DirSlots())) || old(RoomOnDisk()))
      ensures Ready() && |old(rootChain)| > 0 && Strayed(old(vol), vol, old(rootChain)[|old(rootChain)| - 1])
      ensures !found ==> rootChain == old(rootChain)
      ensures reliable && !found ==> GrowthEnded(old(vol), vol, g.clusterLimit, old(rootChain)[|old(rootChain)| - 1])
    {
      hide Mapped, Inv, DirSlots, Located, Fillable, GrownBy, Strayed, GrowthEnded, Extended, AllUsed;
      RootStart(NO_HOLE);
      ExtendedSelf(DirSlots());
      StrayedSelf(vol, rootChain[|rootChain| - 1]);
      var last;
      found, lba, off, last, k := ScanForSlot();
      grown := 0;
      if !found {
        found, lba, k, grown := GrowDirectory(last);
        off := 0;
      }
    }

    /** Storing 32 bytes in a directory slot: `write_dir_entry`, and the mark `fat32_delete_file` makes. */
    method PutSlot(lba: nat, off: nat, e: seq<byte>, ghost k: nat) returns (ok: bool)
      requires Ready() && Located(k, lba, off) && |e| == 32
      modifies this`disk, this`vol, workBuf
      ensures Ready()
      ensures vol == if ok then WriteSlot(old(vol), g.sectorsPerCluster, rootChain, k, e) else old(vol)
      ensures !ok ==> disk == old(disk)
      ensures reliable ==> ok
    {
      hide View, Fits, Locs, OutsideKept;
      ghost var loc := DirLocs()[k / 16];
      SectorOnDisk(loc.cluster, loc.sector);
      ok := ReadSector(lba, workBuf);
      if !ok {
        return;
      }
      Overwrite(workBuf, off, e);
      ghost var sec: Sector := workBuf[..];
      SectorWritten(loc.cluster, loc.sector, sec);
      ok := WriteSector(lba, workBuf);
      if ok {
        vol := SetSector(vol, loc.cluster, loc.sector, sec);
      }
    }

    lemma OutsideNow()
      requires Ready()
      ensures OutsideKept(g, origin, disk)
    {
    }

    // Storing a file.

    /** Takes a cluster and links it behind `prev`, which is 0 for the first one. */
    method LinkCluster(prev: nat, ghost v: Volume, ghost cs: seq<nat>) returns (outcome: Append, c: nat)
      requires Ready() && TakenFrom(v, vol, g.clusterLimit, cs) && |v.fats[0]| == g.EntryCount()
      requires prev == if cs == [] then 0 else cs[|cs| - 1]
      modifies this`disk, this`vol, workBuf
      ensures Ready() && FreeTouched(v, vol) && vol.clusters == old(vol).clusters && SameShape(old(vol), vol)
      ensures outcome == Appended || outcome == NoCluster || outcome == LinkFailed
      ensures outcome == Appended ==> TakenFrom(v, vol, g.EntryCount(), cs + [c]) && 2 <= c < g.EntryCount()
      ensures outcome == Appended ==> (c < g.clusterLimit <==> FreeBelow(old(vol).fats[0], g.clusterLimit) != {})
      ensures outcome == Appended && c < g.clusterLimit ==> TakenFrom(v, vol, g.clusterLimit, cs + [c])
      ensures outcome == NoCluster ==> Chain(vol.fats[0], g.clusterLimit, if cs == [] then 0 else cs[0], cs)
      ensures reliable ==> outcome != LinkFailed
      ensures reliable && outcome == NoCluster ==> vol == old(vol) && FreeBelow(vol.fats[0], g.clusterLimit) == {}
    {
      hide Mapped, TakenFrom, Chain, FreeTouched, SetFirst, AllFree;
      TakenShape(v, vol, g.clusterLimit, cs);
      ghost var touched;
      c, touched := AllocCluster();
      if c == 0 {
        AllocFailed(v, old(vol), vol, g.clusterLimit, cs, touched);
        return NoCluster, 0;
      }
      LowestFree(old(vol).fats[0], g.clusterLimit, c);
      TakenNext(v, old(vol), g.clusterLimit, g.EntryCount(), cs, c);
      if c < g.clusterLimit {
        TakenNext(v, old(vol), g.clusterLimit, g.clusterLimit, cs, c);
      }
      TakenPart(v, old(vol), g.clusterLimit, cs, c);
      if prev != 0 {
        var ok;
        ghost var done;
        ok, done := SetEntry(prev, c);
        LinkedPart(v, old(vol), g.clusterLimit, cs, c, done);
        if !ok {
          return LinkFailed, c;
        }
      }
      return Appended, c;
    }

    /** A cluster taken, linked and filled: one round of the loop of `fat32_write_file`. */
    method AppendCluster(data: seq<byte>, at: nat, prev: nat, ghost v: Volume, ghost cs: seq<nat>)
      returns (outcome: Append, c: nat, written: nat)
      requires Ready() && TakenFrom(v, vol, g.clusterLimit, cs) && |v.fats[0]| == g.EntryCount()
      requires prev == if cs == [] then 0 else cs[|cs| - 1]
      requires Stored(vol, g.sectorsPerCluster, cs, data)
      requires at == 512 * |Locs(cs, g.sectorsPerCluster)| < |data|
      modifies this`disk, this`vol, workBuf
      ensures Ready() && FreeTouched(v, vol)
      ensures outcome == Appended ==>
                && TakenFrom(v, vol, g.clusterLimit, cs + [c]) && Stored(vol, g.sectorsPerCluster, cs + [c], data)
                && written == if at + 512 * g.sectorsPerCluster < |data| then at + 512 * g.sectorsPerCluster else |data|
      ensures outcome == NoCluster ==> Chain(vol.fats[0], g.clusterLimit, if cs == [] then 0 else cs[0], cs)
      ensures outcome == WriteFailed ==> TakenFrom(v, vol, g.EntryCount(), cs + [c])
      ensures reliable ==> outcome != LinkFailed
      ensures reliable ==> (outcome == Appended <==> FreeBelow(old(vol).fats[0], g.clusterLimit) != {})
      ensures reliable && outcome == NoCluster ==> vol == old(vol)
    {
      hide Mapped, TakenFrom, Chain, FreeTouched, Stored, Holding, FreeBelow;
      outcome, c := LinkCluster(prev, v, cs);
      if outcome != Appended {
        return outcome, c, at;
      }
      ghost var linked := vol;
      TakenShape(v, linked, g.EntryCount(), cs + [c]);
      assert c == (cs + [c])[|cs|] && c in cs + [c];
      var ok;
      ok, written := WriteCluster(c, data, at);
      TakenSectors(v, linked, vol, g.EntryCount(), cs + [c], c);
      TakenShape(v, vol, g.EntryCount(), cs + [c]);
      if !ok {
        return WriteFailed, c, at;
      }
      TakenSectors(v, linked, vol, g.clusterLimit, cs + [c], c);
      NotInChain(vol.fats[0], g.EntryCount(), cs, c);
      StoredNext(old(vol), vol, g.sectorsPerCluster, cs, c, data);
      return Appended, c, written;
    }

    /** Frees what an unfinished file took, if it took anything. */
    method Undo(ghost v: Volume, ghost limit: nat, first: nat, ghost cs: seq<nat>)
      requires Ready() && v.fats != [] && FreeTouched(v, vol) && AllFree(v.fats[0], cs)
      requires limit <= g.EntryCount() && first == if cs == [] then 0 else cs[0]
      requires Chain(vol.fats[0], limit, first, cs)
      modifies this`disk, this`vol, workBuf, sectorBuf
      ensures Ready() && FreeTouched(v, vol)
      ensures reliable && KeptOutside(v, old(vol), cs) ==>
              vol.fats[0] == v.fats[0] && (Mirrored(v) ==> vol.fats == v.fats)
    {
      hide Mapped, Chain, FreeTouched, AllFree, KeptOutside, Cleared, TablesDifferOnlyAt, ReachSet, WalkInRange;
      if first == 0 {
        assert cs == [] by { ChainStart(vol.fats[0], limit, cs); }
        if KeptOutside(v, vol, cs) {
          KeptAll(v, vol);
        }
        return;
      }
      ChainKeepsWalk(vol.fats[0], limit, first, cs);
      var ok := FreeChain(first);
      Undone(v, old(vol), vol, limit, first, cs);
    }

    /**
     * The allocation loop of `fat32_write_file` for a non-empty file: the number of bytes written, or
     * one of its codes. It touches free clusters only, and with reliable writes a failure gives back
     * what it took.
     */
    method StoreData(data: seq<byte>) returns (code: int, first: nat, ghost cs: seq<nat>)
      requires Ready() && |data| > 0
      modifies this`disk, this`vol, workBuf, sectorBuf
      ensures Ready() && FreeTouched(old(vol), vol)
      ensures code >= 0 ==>
                && code == |data| && cs != [] && first == cs[0] && |cs| == ClustersFor(|data|, g.sectorsPerCluster)
                && TakenFrom(old(vol), vol, g.clusterLimit, cs) && Stored(vol, g.sectorsPerCluster, cs, data)
                && |data| <= 512 * |Locs(cs, g.sectorsPerCluster)|
      ensures reliable ==>
                (code >= 0 <==>
                 ClustersFor(|data|, g.sectorsPerCluster) <= |FreeBelow(old(vol).fats[0], g.clusterLimit)|)
      ensures reliable && code < 0 ==>
              vol.fats[0] == old(vol).fats[0] && (Mirrored(old(vol)) ==> vol.fats == old(vol).fats)
      ensures code < 0 ==> -7 <= code <= -5 && (reliable ==> code != -6)
    {
      hide Mapped, TakenFrom, Chain, FreeTouched, Stored, KeptOutside, Mirrored, FreeBelow, AllFree, ClustersFor, Locs;
      ghost var v := vol;
      var needed := ClustersFor(|data|, g.sectorsPerCluster);
      var written, prev, n := 0, 0, 0;
      first, cs := 0, [];
      StoreStart(v, g.clusterLimit, g.sectorsPerCluster, data);
      while n < needed
        invariant Ready() && n <= needed && n == |cs|
        invariant StoreState(v, vol, g.clusterLimit, g.sectorsPerCluster, cs, data)
        invariant first == (if cs == [] then 0 else cs[0]) && prev == (if cs == [] then 0 else cs[|cs| - 1])
        invariant written ==
                if 512 * |Locs(cs, g.sectorsPerCluster)| < |data| then 512 * |Locs(cs, g.sectorsPerCluster)| else |data|
      {
        LocsLength(cs, g.sectorsPerCluster);
        NeededCover(|data|, g.sectorsPerCluster, n);
        ghost var before := vol;
        TakenShape(v, before, g.clusterLimit, cs);
        var outcome, c;
        outcome, c, written := AppendCluster(data, written, prev, v, cs);
        StoreCount(v, before, g.clusterLimit, cs);
        match outcome
        case Appended =>
          LocsAppend(cs, c, g.sectorsPerCluster);
          if first == 0 {
            first := c;
          }
          cs := cs + [c];
          prev := c;
          n := n + 1;
        case NoCluster =>
          Undo(v, g.clusterLimit, first, cs);
          return -5, first, cs;
        case LinkFailed =>
          return -6, first, cs;
        case WriteFailed =>
          TakenShape(v, vol, g.EntryCount(), cs + [c]);
          Undo(v, g.EntryCount(), if first == 0 then c else first, cs + [c]);
          return -7, first, cs;
      }
      LocsLength(cs, g.sectorsPerCluster);
      NeededCover(|data|, g.sectorsPerCluster, n);
      TakenShape(v, vol, g.clusterLimit, cs);
      StoreCount(v, vol, g.clusterLimit, cs);
      code := written;
    }

    // The operations.

    lemma SlotBytes(k: nat, lba: nat, off: nat)
      requires Ready() && Located(k, lba, off)
      ensures lba < |disk| && off + 32 <= 512 && k < |DirSlots()|
      ensures DirSlots()[k] == disk[lba][off..off + 32]
    {
      hide Mapped, Locs;
      SlotAt(vol, g.sectorsPerCluster, rootChain, k);
      SectorOnDisk(DirLocs()[k / 16].cluster, DirLocs()[k / 16].sector);
    }

    /** The fields of an entry read from the buffer its sector was read into. */
    lemma EntryInBuffer(sec: Sector, off: nat, e: seq<byte>)
      requires off + 32 <= 512 && e == sec[off..off + 32]
      ensures Le16(sec, off + 20) * TWO16 + Le16(sec, off + 26) == ClusterOf(e)
      ensures Le32(sec, off + 28) == SizeOf(e)
    {
      assert forall i :: 0 <= i < 32 ==> sec[off + i] == e[i];
    }

    /** Overwriting starts by freeing the file's clusters; its slot is the hole until the new entry is written. */
    method ReleaseOld(lba: nat, off: nat, ghost n: Name) returns (ok: bool)
      requires Valid() && n in files && Located(files[n].slot, lba, off)
      modifies this`disk, this`vol, this`files, workBuf, sectorBuf
      ensures ok ==> Holds(old(files)[n].slot) && files == old(files) - {n}
      ensures ok ==> Located(old(files)[n].slot, lba, off) && Fillable(DirSlots(), old(files)[n].slot)
      ensures ok ==> Cleared(old(vol), vol, SetOf(old(files)[n].chain)) && DirSlots() == old(DirSlots())
      ensures reliable ==> ok
      ensures Ready()
      ensures (!ok ==> files == old(files) && Survive(old(vol), vol, g.sectorsPerCluster, rootChain, files, n))
    {
      hide Mapped, Inv, Locs, RootSlots, Fillable, Live, Spells, Chain, Cleared, TablesDifferOnlyAt, Survive;
      ghost var f := files[n];
      ghost var spc := g.sectorsPerCluster;
      FileChain(vol, spc, g.rootCluster, rootChain, files, n);
      SlotBytes(f.slot, lba, off);
      ok := ReadSector(lba, sectorBuf);
      EntryInBuffer(sectorBuf[..], off, DirSlots()[f.slot]);
      var cluster := Le16(sectorBuf[..], off + 20) * TWO16 + Le16(sectorBuf[..], off + 26);
      ReachIsChain(vol.fats[0], g.clusterLimit, cluster, f.chain);
      if cluster >= 2 {
        ok := FreeChain(cluster);
        if !ok {
          Release(old(vol), vol, spc, g.rootCluster, rootChain, files, n);
          HoleSurvive(old(vol), vol, spc, g.rootCluster, rootChain, files, n, f.slot);
          return;
        }
      } else {
        NothingFreed(vol, g.clusterLimit, cluster, f.chain);
      }
      ClearedDiffers(old(vol), vol, SetOf(f.chain));
      Release(old(vol), vol, spc, g.rootCluster, rootChain, files, n);
      InvDirectory(vol, spc, g.rootCluster, rootChain, files - {n}, f.slot);
      files := files - {n};
    }

    /** The clusters an existing file gives back when it is overwritten. */
    ghost function OldChain(n: Name): set<nat>
      reads this
    {
      if n in files then SetOf(files[n].chain) else {}
    }

    /** A new name needs one more cluster for the directory itself. */
    ghost predicate MustGrow(n: Name)
      reads this
    {
      n !in files && Full(DirSlots())
    }

    /** The last cluster of a root directory. */
    ghost function RootEnd(rc: seq<nat>): nat { if rc == [] then 0 else rc[|rc| - 1] }

    /** The entry of a new or overwritten file: which slot, what was freed, what the directory took. */
    method PrepareSlot(name: seq<byte>) returns (code: int, lba: nat, off: nat, ghost k: nat, ghost grown: set<nat>)
      requires Valid()
      modifies this`disk, this`vol, this`rootChain, this`files, workBuf, sectorBuf
      ensures code == 0 || (code == -2 && !reliable && ShortName(name) in old(files)) || (code == -3
              && old(MustGrow(ShortName(name))))
      ensures code == 0 ==> Holds(k) && Located(k, lba, off) && Fillable(DirSlots(), k) && k < |DirSlots()|
      ensures code == 0 ==> files == old(files) - {ShortName(name)}
      ensures code == 0 ==> FreeMoved(old(vol), vol, g.clusterLimit, old(OldChain(ShortName(name))), grown)
      ensures code == 0 && Mirrored(old(vol)) ==> Mirrored(vol)
      ensures code == 0 ==> |grown| == (if old(MustGrow(ShortName(name))) then 1 else 0)
      ensures code == 0 ==> grown <= FreeBelow(old(vol).fats[0], g.clusterLimit)
      ensures code == 0 && ShortName(name) in old(files) ==>
                Emptied(old(vol), old(files)[ShortName(name)].chain) && k == old(files)[ShortName(name)].slot
                && DirSlots() == old(DirSlots()) && rootChain == old(rootChain)
      ensures code == 0 ==> Extended(old(DirSlots()), DirSlots(),
              if old(MustGrow(ShortName(name))) then 16 * g.sectorsPerCluster else 0)
      ensures code == 0 && ShortName(name) !in old(files) ==> LowestUnused(old(DirSlots()), k)
      ensures ShortName(name) !in old(files) && !old(Full(DirSlots())) ==>
                code == 0 && vol == old(vol) && rootChain == old(rootChain) && !Live(DirSlots()[k])
      ensures reliable ==> (code == 0 <==> !old(MustGrow(ShortName(name))) || old(RoomOnDisk()))
      ensures Ready() && (code != 0 ==> files == old(files) && rootChain == old(rootChain))
      ensures code != 0 ==> Survive(old(vol), vol, g.sectorsPerCluster, rootChain, files, ShortName(name))
      ensures reliable && code != 0 ==> GrowthEnded(old(vol), vol, g.clusterLimit, RootEnd(old(rootChain)))
      ensures code == 0 && ShortName(name) !in old(files) ==>
                && !Live(DirSlots()[k]) && Strayed(old(vol), vol, RootEnd(old(rootChain)))
                && RootEnd(old(rootChain)) in old(rootChain) && InUse(vol.fats[0], RootEnd(old(rootChain)))
    {
      hide Mapped, Inv, DirSlots, Located, Full, FreeMoved, Mirrored, FreeBelow, Live, Cleared, TakeAndLink, Strayed;
      hide Survive, GrowthEnded, Extended, LowestUnused, ShortName, ShortChar, Chain, Locs;
      ghost var n := ShortName(name);
      ExtendedSelf(DirSlots());
      var found;
      found, lba, off := FindEntryLocation(name);
      grown := {};
      if found {
        k := files[n].slot;
        ChainOnDisk(n);
        var ok := ReleaseOld(lba, off, n);
        if !ok {
          return -2, lba, off, k, grown;
        }
        FreedMoves(old(vol), vol, g.clusterLimit, SetOf(old(files)[n].chain));
        EmptiedChain(old(vol), old(files)[n].chain);
        return 0, lba, off, k, grown;
      }
      found, lba, off, k, grown := NewSlot(n);
      code := if found then 0 else -3;
    }

    /** The entry of a new file. */
    method NewSlot(ghost n: Name) returns (found: bool, lba: nat, off: nat, ghost k: nat, ghost grown: set<nat>)
      requires Valid() && n !in files
      modifies this`disk, this`vol, this`rootChain, workBuf, sectorBuf
      ensures Ready() && (!found ==> rootChain == old(rootChain) && old(Full(DirSlots())))
      ensures found ==> Holds(k) && Located(k, lba, off) && Fillable(DirSlots(), k) && k < |DirSlots()|
      ensures found ==> FreeMoved(old(vol), vol, g.clusterLimit, {}, grown) && (Mirrored(old(vol)) ==> Mirrored(vol))
      ensures found ==> |grown| == (if old(Full(DirSlots())) then 1 else 0)
      ensures found ==> grown <= FreeBelow(old(vol).fats[0], g.clusterLimit)
      ensures found ==> LowestUnused(old(DirSlots()), k) && Extended(old(DirSlots()), DirSlots(),
              if old(Full(DirSlots())) then 16 * g.sectorsPerCluster else 0)
      ensures !old(Full(DirSlots())) ==> vol == old(vol) && rootChain == old(rootChain)
      ensures reliable ==> (found <==> !old(Full(DirSlots())) || old(RoomOnDisk()))
      ensures !found ==> Survive(old(vol), vol, g.sectorsPerCluster, rootChain, files, n)
      ensures reliable && !found ==> GrowthEnded(old(vol), vol, g.clusterLimit, RootEnd(old(rootChain)))
      ensures found ==>
                && !Live(DirSlots()[k]) && Strayed(old(vol), vol, RootEnd(old(rootChain)))
                && RootEnd(old(rootChain)) in old(rootChain) && InUse(vol.fats[0], RootEnd(old(rootChain)))
    {
      hide Mapped, Inv, DirSlots, Located, Full, FreeMoved, Mirrored, FreeBelow, Live, Cleared, TakeAndLink, Strayed;
      hide Survive, GrowthEnded, Extended, LowestUnused, Chain, Locs;
      RootStart(NO_HOLE);
      RootCluster(NO_HOLE, |rootChain| - 1);
      ghost var c;
      ghost var last := RootEnd(rootChain);
      grown := {};
      found, lba, off, k, c := FindFreeDirSlot();
      if !found {
        StrayedSurvive(old(vol), vol, g.sectorsPerCluster, g.rootCluster, rootChain, files, n, last);
        return;
      }
      RootCluster(NO_HOLE, |old(rootChain)| - 1);
      if old(Full(DirSlots())) {
        grown := {c};
        GrownMoves(old(vol), vol, g.clusterLimit, c, old(rootChain)[|old(rootChain)| - 1]);
      } else {
        NothingMoves(vol, g.clusterLimit);
      }
      HoleAt(k);
    }

    /** The clusters `cs` are free now, in a volume otherwise shaped like `v`. */
    ghost predicate Emptied(v: Volume, cs: seq<nat>)
      reads this
    {
      vol.fats != [] && SameShape(v, vol) && forall c :: c in cs && c < |vol.fats[0]| ==> vol.fats[0][c] == 0
    }

    lemma EmptiedChain(v: Volume, cs: seq<nat>)
      requires vol.fats != [] && Cleared(v, vol, SetOf(cs))
      ensures Emptied(v, cs)
    {
      forall c | c in cs && c < |vol.fats[0]| ensures vol.fats[0][c] == 0 {
        assert c in SetOf(cs);
      }
    }

    lemma ChainOnDisk(n: Name)
      requires Valid() && n in files
      ensures forall c :: c in SetOf(files[n].chain) ==> 2 <= c < g.clusterLimit && vol.fats[0][c] != 0
      ensures |SetOf(files[n].chain)| == |files[n].chain|
    {
      hide Mapped;
      FileChain(vol, g.sectorsPerCluster, g.rootCluster, rootChain, files, n);
      hide Inv;
      var e := DirSlots()[files[n].slot];
      forall c | c in SetOf(files[n].chain) ensures 2 <= c < g.clusterLimit && vol.fats[0][c] != 0 {
        InChain(vol.fats[0], g.clusterLimit, ClusterOf(e), files[n].chain, c);
      }
      SetOfSize(files[n].chain);
    }

    lemma HoleAt(k: nat)
      requires Valid() && k < |DirSlots()| && !Live(DirSlots()[k])
      ensures Holds(k)
    {
      hide Mapped, RootSlots, Live, RootOk, Disjoint, Directory;
      InvDirectory(vol, g.sectorsPerCluster, g.rootCluster, rootChain, files, NO_HOLE);
      UnusedHole(vol, g.sectorsPerCluster, g.rootCluster, rootChain, files, k);
    }

    /** The last step: the entry that makes a finished chain the file `n`. */
    method FinishFile(n: Name, lba: nat, off: nat, first: nat, data: seq<byte>, ghost k: nat,
                      ghost cs: seq<nat>) returns (ok: bool)
      requires Holds(k) && Located(k, lba, off) && Fillable(DirSlots(), k)
      requires |n| == 11 && n[0] != 0x00 && n[0] != 0xE5 && n !in files && |data| < TWO32
      requires first == (if cs == [] then 0 else cs[0]) && Chain(vol.fats[0], g.clusterLimit, first, cs)
      requires Spells(vol, g.sectorsPerCluster, cs, data) && forall c :: c in cs ==> !Owned(rootChain, files, c)
      modifies this`disk, this`vol, this`files, workBuf
      ensures ok ==> Valid() && files == old(files)[n := File(k, cs, data)] && vol.fats == old(vol).fats
      ensures first < TWO32
      ensures ok ==> DirSlots() == old(DirSlots())[k := MakeEntry(n, first, |data|)]
      ensures !ok ==> Ready() && vol == old(vol) && files == old(files)
      ensures reliable ==> ok
    {
      hide Mapped, Inv, Locs, RootSlots, Fillable, Live, Spells, Chain, Owned, MakeEntry, NameOf, ClusterOf, SizeOf;
      hide EntryBytes;
      ghost var f := File(k, cs, data);
      FirstFits(first, cs);
      var e := MakeEntry(n, first, |data|);
      EntryFields(n, first, |data|);
      assert Shape(vol, g.sectorsPerCluster) by {
        InvShape(vol, g.sectorsPerCluster, g.rootCluster, rootChain, files, k);
      }
      Commit(vol, g.sectorsPerCluster, g.rootCluster, rootChain, files, k, e, f);
      ok := PutSlot(lba, off, e, k);
      if ok {
        files := files[n := f];
      }
    }

    lemma FirstFits(first: nat, cs: seq<nat>)
      requires Ready() && first == (if cs == [] then 0 else cs[0]) && Chain(vol.fats[0], g.clusterLimit, first, cs)
      ensures first < TWO32
    {
      hide Mapped;
    }

    /** Storing the bytes, if there are any, and writing the entry that names them. */
    method StoreAndFinish(n: Name, data: seq<byte>, lba: nat, off: nat,
                          ghost k: nat) returns (code: int, ghost cs: seq<nat>, ghost stored: Volume)
      requires Holds(k) && Located(k, lba, off) && Fillable(DirSlots(), k)
      requires |n| == 11 && n[0] != 0x00 && n[0] != 0xE5 && n !in files && |data| < 0x8000_0000
      modifies this`disk, this`vol, this`files, workBuf, sectorBuf
      ensures code >= 0 ==> Valid() && code == |data| && files == old(files)[n := File(k, cs, data)]
      ensures code >= 0 ==> |cs| == ClustersFor(|data|, g.sectorsPerCluster)
      ensures code >= 0 ==> TakenFrom(old(vol), stored, g.clusterLimit, cs) && vol.fats == stored.fats
      ensures code >= 0 ==> cs == [] || cs[0] < TWO32
      ensures code >= 0 ==>
                DirSlots() == old(DirSlots())[k := MakeEntry(n, if cs == [] then 0 else cs[0], |data|)]
      ensures code < 0 ==>
              Holds(k) && files == old(files) && DirSlots() == old(DirSlots()) && FreeTouched(old(vol), vol)
      ensures reliable && code < 0 ==> vol.fats[0] == old(vol).fats[0]
      ensures code < 0 ==>
              (if data == [] then code == -4 else -8 <= code <= -5) && (reliable ==> code == -5 || code == -7)
      ensures reliable ==>
                (code >= 0 <==>
                 ClustersFor(|data|, g.sectorsPerCluster) <= |FreeBelow(old(vol).fats[0], g.clusterLimit)|)
    {
      hide Mapped, Inv, Locs, RootSlots, Fillable, Spells, Chain, Owned, FreeTouched, Stored, TakenFrom, FreeBelow;
      hide ClustersFor, MakeEntry;
      ghost var spc := g.sectorsPerCluster;
      var first := 0;
      cs := [];
      StoredNothing(vol, g.clusterLimit, spc);
      NothingNeeded(spc);
      if |data| > 0 {
        code, first, cs := StoreData(data);
      } else {
        code := 0;
      }
      FrameFree(old(vol), vol, spc, g.rootCluster, rootChain, files, k);
      stored := vol;
      if code < 0 {
        return;
      }
      StoredFile(old(vol), vol, spc, g.rootCluster, rootChain, files, k, cs, data);
      var ok := FinishFile(n, lba, off, first, data, k, cs);
      if !ok {
        code := if |data| == 0 then -4 else -8;
      }
    }

    /**
     * `fat32_write_file` on a mounted volume. On success the name stands for exactly `data` and every
     * other file is untouched; with reliable writes success depends on space alone; and creating a
     * file in a directory with a free slot is safe even when a write fails half-way.
     */
    method WriteMounted(name: seq<byte>, data: seq<byte>) returns (code: int, ghost grown: set<nat>)
      requires Valid() && AsciiName(name) && |data| < 0x8000_0000
      modifies this`disk, this`vol, this`rootChain, this`files, workBuf, sectorBuf
      ensures code >= 0 ==> Valid() && code == |data|
      ensures code >= 0 ==>
                && ShortName(name) in files && files[ShortName(name)].data == data
                && files - {ShortName(name)} == old(files) - {ShortName(name)}
                && |files[ShortName(name)].chain| == ClustersFor(|data|, g.sectorsPerCluster)
      ensures code >= 0 ==>
                && |grown| == (if old(MustGrow(ShortName(name))) then 1 else 0)
                && grown <= FreeBelow(old(vol).fats[0], g.clusterLimit)
                && OldChain(ShortName(name)) <=
                   FreeBelow(old(vol).fats[0], g.clusterLimit) + old(OldChain(ShortName(name))) - grown
                && FreeMoved(old(vol), vol, g.clusterLimit, old(OldChain(ShortName(name))),
                   grown + OldChain(ShortName(name)))
      ensures code >= 0 && Mirrored(old(vol)) ==> Mirrored(vol)
      ensures code >= 0 ==>
                var n := ShortName(name);
                var f := files[n];
                && f.slot < |DirSlots()|
                && EntryBytes(DirSlots()[f.slot], n, if f.chain == [] then 0 else f.chain[0], |data|)
                && (if n in old(files) then f.slot == old(files)[n].slot else LowestUnused(old(DirSlots()), f.slot))
                && FiledAt(old(DirSlots()), DirSlots(), f.slot,
                     if old(MustGrow(n)) then 16 * g.sectorsPerCluster else 0)
      ensures code < 0 && ShortName(name) !in old(files) && !old(Full(DirSlots())) ==>
                Valid() && files == old(files) && rootChain == old(rootChain) && FreeTouched(old(vol), vol)
      ensures reliable ==>
                (code >= 0 <==>
                 ClustersFor(|data|, g.sectorsPerCluster) + (if old(MustGrow(ShortName(name))) then 1 else 0)
                 <= |FreeBelow(old(vol).fats[0], g.clusterLimit)| + |old(OldChain(ShortName(name)))|)
      ensures reliable && code < 0 && ShortName(name) in old(files) ==>
                (Recoverable() <==> old(files)[ShortName(name)].chain == [])
      ensures reliable && code < 0 && old(MustGrow(ShortName(name))) ==>
                && (Recoverable() <==> old(RoomOnDisk()) || FreeBelow(old(vol).fats[0], g.EntryCount()) == {})
                && (Recoverable() ==> Valid() && files == old(files))
      ensures code < 0 ==>
              Ready() && Survive(old(vol), vol, g.sectorsPerCluster, old(rootChain), old(files), ShortName(name))
      ensures code < 0 ==>
                || (code == -2 && !reliable && ShortName(name) in old(files)) || (code == -3
                   && old(MustGrow(ShortName(name))))
                || (code == -4 && !reliable && data == []) || (code == -5 && data != []) || (code == -7 && data != [])
                || ((code == -6 || code == -8) && !reliable && data != [])
      ensures reliable ==> (code == -3 <==> old(MustGrow(ShortName(name))) && !old(RoomOnDisk()))
    {
      hide Mapped, Inv, RootSlots, Located, Full, FreeMoved, Mirrored, FreeBelow, Live, FreeTouched, TakenFrom;
      hide ClustersFor, Fillable, Recoverable, Strayed, Survive, GrowthEnded, Extended, LowestUnused, FiledAt;
      hide EntryBytes, MakeEntry;
      ghost var n := ShortName(name);
      var name11 := ToShortName(name);
      ShortNameVisible(name);
      hide ShortName, ShortChar;
      if n in files {
        ChainOnDisk(n);
      }
      ghost var freed := OldChain(n);
      RootStart(NO_HOLE);
      var lba, off;
      ghost var k;
      code, lba, off, k, grown := PrepareSlot(name);
      if code != 0 {
        if reliable {
          RoomBelow(old(vol).fats[0], g.clusterLimit);
          GrowthVerdict(old(vol));
        }
        return;
      }
      ghost var v, cs, stored, slots := vol, [], vol, DirSlots();
      MovedCount(old(vol), v, g.clusterLimit, freed, grown);
      code, cs, stored := StoreAndFinish(name11[..], data, lba, off, k);
      if code >= 0 {
        OthersKept(old(files), n, File(k, cs, data));
        ghost var first := if cs == [] then 0 else cs[0];
        EntryAsBytes(n, first, |data|);
        ExtendedFiled(old(DirSlots()), slots, k,
            if old(MustGrow(n)) then 16 * g.sectorsPerCluster else 0, MakeEntry(n, first, |data|));
        Accounted(old(vol), v, stored, freed, grown, cs);
      } else if n !in old(files) {
        assert files == old(files);
        HoleClosed(k);
        StrayedThenFree(old(vol), v, vol, RootEnd(old(rootChain)));
        StrayedSurvive(old(vol), vol, g.sectorsPerCluster, g.rootCluster, old(rootChain), files, n,
            RootEnd(old(rootChain)));
        ValidRecovers();
      } else {
        HoleSurvive(old(vol), vol, g.sectorsPerCluster, g.rootCluster, rootChain, old(files), n, k);
        if reliable {
          StillEmptied(old(vol), v, old(files)[n].chain);
          Unrecoverable(old(vol), old(files), n);
        }
      }
    }

    lemma RoomBelow(fat: seq<nat>, limit: nat)
      requires limit <= |fat|
      ensures FreeBelow(fat, |fat|) == {} ==> FreeBelow(fat, limit) == {}
      ensures FreeBelow(fat, limit) == {} ==> |FreeBelow(fat, limit)| == 0
    {
      assert FreeBelow(fat, limit) <= FreeBelow(fat, |fat|);
    }

    lemma ValidRecovers()
      requires Valid()
      ensures Recoverable()
    {
      hide Mapped, Inv;
    }

    /** What a growth that failed with reliable writes leaves. */
    lemma GrowthVerdict(u: Volume)
      requires Ready() && rootChain != [] && |u.clusters| == g.clusterLimit
      requires Inv(u, g.sectorsPerCluster, g.rootCluster, rootChain, files, NO_HOLE)
      requires GrowthEnded(u, vol, g.clusterLimit, RootEnd(rootChain))
      ensures Recoverable() <==> FreeBelow(u.fats[0], |u.fats[0]|) == {}
      ensures Recoverable() ==> Valid()
    {
      hide Mapped, Inv, Severed;
      if FreeBelow(u.fats[0], |u.fats[0]|) != {} {
        forall rc, fs ensures !Inv(vol, g.sectorsPerCluster, g.rootCluster, rc, fs, NO_HOLE) {
          SeveredForGood(u, vol, g.sectorsPerCluster, g.rootCluster, rootChain, files, rc, fs);
        }
      }
    }

    /** Some root directory and set of files is consistent with the disk as it is. */
    ghost predicate Recoverable()
      reads this
    {
      exists rc, fs :: Inv(vol, g.sectorsPerCluster, g.rootCluster, rc, fs, NO_HOLE)
    }

    lemma StillEmptied(u: Volume, v: Volume, cs: seq<nat>)
      requires v.fats != [] && SameShape(u, v) && (forall c :: c in cs && c < |v.fats[0]| ==> v.fats[0][c] == 0)
      requires FreeTouched(v, vol) && vol.fats != [] && vol.fats[0] == v.fats[0]
      ensures Emptied(u, cs)
    {
    }

    lemma Unrecoverable(u: Volume, before: Files, n: Name)
      requires Inv(u, g.sectorsPerCluster, g.rootCluster, rootChain, before, NO_HOLE) && n in before
      requires Holds(before[n].slot) && files == before - {n}
      requires DirSlots() == RootSlots(u, g.sectorsPerCluster, rootChain) && Emptied(u, before[n].chain)
      ensures Recoverable() <==> before[n].chain == []
    {
      hide Mapped, Inv, RootSlots;
      FailedOverwrite(u, vol, g.sectorsPerCluster, g.rootCluster, rootChain, before, n);
      forall rc, fs | Inv(vol, g.sectorsPerCluster, g.rootCluster, rc, fs, NO_HOLE) ensures rc == rootChain {
        RootUnique(vol, g.sectorsPerCluster, g.rootCluster, rootChain, files, before[n].slot, rc, fs);
      }
    }

    /** What preparation freed and took, and what storing took, add up. */
    lemma Accounted(u: Volume, v: Volume, stored: Volume, freed: set<nat>, grown: set<nat>, cs: seq<nat>)
      requires FreeMoved(u, v, g.clusterLimit, freed, grown) && g.clusterLimit <= |u.fats[0]|
      requires |v.fats[0]| == |u.fats[0]| && TakenFrom(v, stored, g.clusterLimit, cs) && vol.fats == stored.fats
      ensures FreeMoved(u, vol, g.clusterLimit, freed, grown + SetOf(cs))
      ensures SetOf(cs) <= FreeBelow(u.fats[0], g.clusterLimit) + freed - grown
      ensures Mirrored(v) ==> Mirrored(vol)
    {
      TakenFree(v, stored, g.clusterLimit, cs, g.clusterLimit);
      MovesCompose(u, v, stored, g.clusterLimit, freed, grown, cs);
      MovedFats(u, stored, vol, g.clusterLimit, freed, grown + SetOf(cs));
      if Mirrored(v) {
        TakenMirrored(v, stored, g.clusterLimit, cs);
        MirroredFats(stored, vol);
      }
    }

    lemma HoleClosed(k: nat)
      requires Holds(k) && k < |DirSlots()| && !Live(DirSlots()[k])
      ensures Valid()
    {
      hide Mapped, RootSlots, Live, RootOk, Disjoint, Directory;
      InvDirectory(vol, g.sectorsPerCluster, g.rootCluster, rootChain, files, k);
      UnusedHole(vol, g.sectorsPerCluster, g.rootCluster, rootChain, files, k);
    }

    /** `fat32_write_file` */
    method WriteFile(name: seq<byte>, data: seq<byte>) returns (code: int)
      requires AsciiName(name) && |data| < 0x8000_0000
      requires mounted ==> Valid()
      modifies this`disk, this`vol, this`rootChain, this`files, workBuf, sectorBuf
      ensures !mounted ==> code == -1 && disk == old(disk) && files == old(files)
      ensures mounted ==> OutsideKept(g, old(disk), disk)
      ensures mounted && code >= 0 ==>
                && Valid() && code == |data| && Contents() == old(Contents())[ShortName(name) := data]
                && (Mirrored(old(vol)) ==> Mirrored(vol))
      ensures mounted && code < 0 && ShortName(name) !in old(files) && !old(Full(DirSlots())) ==>
                Valid() && Contents() == old(Contents())
      ensures mounted && code < 0 ==>
                && -8 <= code <= -2 && (reliable ==> code == -3 || code == -5 || code == -7)
                && Ready() && Survive(old(vol), vol, g.sectorsPerCluster, old(rootChain), old(files), ShortName(name))
    {
      hide Mapped, Inv, RootSlots, Full, FreeMoved, Mirrored, FreeBelow, FreeTouched, ClustersFor, Recoverable, Survive;
      hide OutsideKept, FiledAt, LowestUnused, EntryBytes;
      if !mounted {
        return -1;
      }
      OutsideNow();
      ghost var grown;
      code, grown := WriteMounted(name, data);
      OutsideNow();
      OutsideKeptSince(g, origin, old(disk), disk);
      if code >= 0 {
        ContentsUpdated(old(files), files, ShortName(name));
      }
    }

    /** What the names in the root directory stand for. */
    ghost function Contents(): map<Name, seq<byte>>
      reads this
    {
      DataOf(files)
    }

    /** Marks the slot of `n` deleted; the first cluster of its chain comes back. */
    method MarkDeleted(lba: nat, off: nat, ghost n: Name) returns (ok: bool, first: nat)
      requires Valid() && n in files && Located(files[n].slot, lba, off)
      modifies this`disk, this`vol, this`files, workBuf
      ensures ok ==> Valid() && files == old(files) - {n} && vol.fats == old(vol).fats && SameShape(old(vol), vol)
      ensures ok ==> forall c :: c in old(files)[n].chain ==> !Owned(rootChain, files, c)
      ensures ok ==> Chain(vol.fats[0], g.clusterLimit, first, old(files)[n].chain)
      ensures ok ==> KeptElsewhere(old(vol), vol, {}, rootChain)
      ensures ok ==>
                var k := old(files)[n].slot;
                k < |old(DirSlots())| && DirSlots() == old(DirSlots())[k := old(DirSlots())[k][0 := 0xE5]]
      ensures !ok ==> Ready() && disk == old(disk) && vol == old(vol) && files == old(files)
      ensures reliable ==> ok
    {
      hide Mapped, Inv, Locs, RootSlots, Live, Spells, Chain, Owned, Fillable, ClusterOf, SizeOf, Le16, WriteSlot;
      hide SameShape, KeptElsewhere;
      ghost var f := files[n];
      FileChain(vol, g.sectorsPerCluster, g.rootCluster, rootChain, files, n);
      SlotBytes(f.slot, lba, off);
      ok := ReadSector(lba, workBuf);
      EntryInBuffer(workBuf[..], off, DirSlots()[f.slot]);
      first := Le16(workBuf[..], off + 20) * TWO16 + Le16(workBuf[..], off + 26);
      var e := workBuf[off..off + 32][0 := 0xE5];
      Erase(vol, g.sectorsPerCluster, g.rootCluster, rootChain, files, n, e);
      WriteSlotShape(vol, g.sectorsPerCluster, rootChain, f.slot, e);
      SlotWriteKeeps(vol, g.sectorsPerCluster, rootChain, f.slot, e);
      ok := PutSlot(lba, off, e, f.slot);
      if ok {
        files := files - {n};
      }
    }

    /** Frees the chain of a deleted file; a failure leaks clusters and nothing else. */
    method ReleaseDeleted(first: nat, ghost cs: seq<nat>)
      requires Valid() && Chain(vol.fats[0], g.clusterLimit, first, cs)
      requires forall c :: c in cs ==> !Owned(rootChain, files, c)
      modifies this`disk, this`vol, workBuf, sectorBuf
      ensures Valid() && TablesDifferOnlyAt(old(vol), vol, SetOf(cs)) && DirSlots() == old(DirSlots())
      ensures reliable ==> Cleared(old(vol), vol, SetOf(cs))
    {
      hide Mapped, Inv, Chain, Owned, TablesDifferOnlyAt, Cleared;
      ReachIsChain(vol.fats[0], g.clusterLimit, first, cs);
      if first >= 2 {
        var ok := FreeChain(first);
      } else {
        NothingFreed(vol, g.clusterLimit, first, cs);
        ClearedDiffers(vol, vol, SetOf(cs));
      }
      ReleaseErased(old(vol), vol, g.sectorsPerCluster, g.rootCluster, rootChain, files, cs);
    }

    /**
     * `fat32_delete_file`. The volume stays consistent whatever writes fail: the file is gone or
     * untouched, and no other file is affected. With reliable writes its clusters are free again.
     */
    method DeleteFile(name: seq<byte>) returns (code: int)
      requires mounted ==> Valid()
      modifies this`disk, this`vol, this`files, workBuf, sectorBuf
      ensures code == 0 || code == -1 || code == -3
      ensures code == -1 <==> !mounted || ShortName(name) !in old(files)
      ensures code != 0 ==> disk == old(disk) && files == old(files)
      ensures mounted ==> Valid() && OutsideKept(g, old(disk), disk)
      ensures code == 0 ==> files == old(files) - {ShortName(name)}
      ensures mounted && reliable && ShortName(name) in old(files) ==> code == 0
      ensures code == 0 ==> KeptElsewhere(old(vol), vol, SetOf(old(files)[ShortName(name)].chain), rootChain)
      ensures code == 0 ==>
                var k := old(files)[ShortName(name)].slot;
                k < |old(DirSlots())| && DirSlots() == old(DirSlots())[k := old(DirSlots())[k][0 := 0xE5]]
      ensures code == 0 && reliable ==>
                && FreeMoved(old(vol), vol, g.clusterLimit, SetOf(old(files)[ShortName(name)].chain), {})
                && (Mirrored(old(vol)) ==> Mirrored(vol))
    {
      hide Mapped, Inv, RootSlots, Located, FreeMoved, Mirrored, FreeBelow, Cleared, TablesDifferOnlyAt, Chain, Owned;
      hide KeptElsewhere, OutsideKept;
      if !mounted {
        return -1;
      }
      OutsideNow();
      OutsideKeptSince(g, origin, disk, disk);
      var found, lba, off := FindEntryLocation(name);
      if !found {
        return -1;
      }
      ghost var n := ShortName(name);
      hide ShortName, ShortChar;
      ChainOnDisk(n);
      var ok, first;
      ok, first := MarkDeleted(lba, off, n);
      if !ok {
        return -3;
      }
      ghost var marked := vol;
      ReleaseDeleted(first, old(files)[n].chain);
      OutsideNow();
      OutsideKeptSince(g, origin, old(disk), disk);
      DeleteKeeps(old(vol), marked, vol, SetOf(old(files)[n].chain), rootChain);
      if reliable {
        FreedMoves(marked, vol, g.clusterLimit, SetOf(old(files)[n].chain));
        MovedFrom(old(vol), marked, vol, g.clusterLimit, SetOf(old(files)[n].chain), {});
        if Mirrored(old(vol)) {
          MirroredFats(old(vol), marked);
        }
      }
      return 0;
    }

    /** The sector loop of `fat32_read_file`. */
    method ReadCluster(c: nat, buffer: array<byte>, size: nat, filled: nat, ghost cs: seq<nat>, ghost data: seq<byte>,
                       ghost ci: nat)
      returns (filled': nat)
      requires Ready() && buffer != sectorBuf && size == |data| <= buffer.Length
      requires ci < |cs| && c == cs[ci] && 2 <= c < g.clusterLimit && Spells(vol, g.sectorsPerCluster, cs, data)
      requires filled == Min(size, 512 * |Locs(cs[..ci], g.sectorsPerCluster)|) && buffer[..filled] == data[..filled]
      modifies buffer, sectorBuf
      ensures filled' == Min(size, 512 * |Locs(cs[..ci + 1], g.sectorsPerCluster)|)
      ensures buffer[..filled'] == data[..filled']
      ensures forall i :: size <= i < buffer.Length ==> buffer[i] == old(buffer[i])
    {
      hide Mapped, Spells, Locs, Geometry.Lba;
      LocAt(cs, ci, 0, g.sectorsPerCluster);
      ghost var base := |Locs(cs[..ci], g.sectorsPerCluster)|;
      var s := 0;
      filled' := filled;
      while s < g.sectorsPerCluster && filled' < size
        invariant s <= g.sectorsPerCluster && filled' == Min(size, 512 * (base + s))
        invariant buffer[..filled'] == data[..filled']
        invariant forall i :: size <= i < buffer.Length ==> buffer[i] == old(buffer[i])
      {
        SectorOnDisk(c, s);
        var ok := ReadSector(g.Lba(c, s), sectorBuf);
        var chunk := if size - filled' < 512 then size - filled' else 512;
        SpelledSector(vol, g.sectorsPerCluster, cs, data, ci, s);
        filled' := CopyChunk(buffer, filled', chunk, data);
        s := s + 1;
      }
    }

    /** `memcpy` of the first `chunk` bytes of the sector buffer to the caller's buffer. */
    method CopyChunk(buffer: array<byte>, filled: nat, chunk: nat, ghost data: seq<byte>) returns (filled': nat)
      requires buffer != sectorBuf && sectorBuf.Length == 512 && chunk <= 512
      requires filled + chunk <= |data| <= buffer.Length && buffer[..filled] == data[..filled]
      requires sectorBuf[..chunk] == data[filled..filled + chunk]
      modifies buffer
      ensures filled' == filled + chunk && buffer[..filled'] == data[..filled']
      ensures forall i :: |data| <= i < buffer.Length ==> buffer[i] == old(buffer[i])
    {
      Overwrite(buffer, filled, sectorBuf[..chunk]);
      filled' := filled + chunk;
      assert buffer[..filled'] == buffer[..filled] + buffer[filled..filled'];
      assert data[..filled'] == data[..filled] + data[filled..filled'];
    }

    /**
     * `fat32_read_file`: exactly the bytes the name stands for, when the buffer can hold them; the
     * rest of the buffer is left alone.
     */
    method ReadFile(name: seq<byte>, buffer: array<byte>, bufferSize: nat) returns (code: int)
      requires mounted ==> Valid()
      requires buffer != sectorBuf && buffer != workBuf && bufferSize <= buffer.Length
      modifies buffer, sectorBuf
      ensures !mounted || ShortName(name) !in files ==> code == -1 && buffer[..] == old(buffer[..])
      ensures mounted && ShortName(name) in files && |files[ShortName(name)].data| > bufferSize ==>
                code == -2 && buffer[..] == old(buffer[..])
      ensures mounted && ShortName(name) in files && |files[ShortName(name)].data| <= bufferSize ==>
                var data := files[ShortName(name)].data;
                && code == AsInt(|data|) && buffer[..|data|] == data
                && forall i :: |data| <= i < buffer.Length ==> buffer[i] == old(buffer[i])
    {
      hide Mapped, Inv, RootSlots, Located, Spells, Chain, Locs, ClusterOf, SizeOf, Le16, Le32;
      if !mounted {
        return -1;
      }
      var found, lba, off := FindEntryLocation(name);
      if !found {
        return -1;
      }
      ghost var n := ShortName(name);
      ghost var f := files[n];
      hide ShortName, ShortChar;
      FileChain(vol, g.sectorsPerCluster, g.rootCluster, rootChain, files, n);
      SlotBytes(f.slot, lba, off);
      EntryInBuffer(sectorBuf[..], off, DirSlots()[f.slot]);
      var cluster := Le16(sectorBuf[..], off + 20) * TWO16 + Le16(sectorBuf[..], off + 26);
      var size := Le32(sectorBuf[..], off + 28);
      if size > bufferSize {
        return -2;
      }
      ReadChain(cluster, buffer, size, f);
      return AsInt(size);
    }

    /** The cluster loop of `fat32_read_file`. */
    method ReadChain(first: nat, buffer: array<byte>, size: nat, ghost f: File)
      requires Ready() && buffer != sectorBuf && size == |f.data| <= buffer.Length
      requires Chain(vol.fats[0], g.clusterLimit, first, f.chain) && Spells(vol, g.sectorsPerCluster, f.chain, f.data)
      modifies buffer, sectorBuf
      ensures buffer[..size] == f.data
      ensures forall i :: size <= i < buffer.Length ==> buffer[i] == old(buffer[i])
    {
      hide Mapped, Spells, Locs, Chain;
      SpelledAll(vol, g.sectorsPerCluster, f.chain, f.data);
      ChainAt(vol.fats[0], g.clusterLimit, first, f.chain, 0);
      var cluster: nat, filled: nat := first, 0;
      ghost var ci := 0;
      while cluster >= 2 && cluster < FAT_EOC && filled < size
        invariant ci <= |f.chain|
        invariant ci < |f.chain| ==> 2 <= cluster == f.chain[ci] < g.clusterLimit
        invariant ci == |f.chain| ==> cluster < 2 || cluster >= FAT_EOC
        invariant filled == Min(size, 512 * |Locs(f.chain[..ci], g.sectorsPerCluster)|)
        invariant buffer[..filled] == f.data[..filled]
        invariant forall i :: size <= i < buffer.Length ==> buffer[i] == old(buffer[i])
        decreases |f.chain| - ci
      {
        filled := ReadCluster(cluster, buffer, size, filled, f.chain, f.data, ci);
        ChainAt(vol.fats[0], g.clusterLimit, first, f.chain, ci);
        cluster := NextCluster(cluster);
        ci := ci + 1;
      }
      assert filled == size;
    }

    /** `fat32_file_size` */
    method FileSize(name: seq<byte>) returns (size: int)
      requires mounted ==> Valid()
      modifies sectorBuf
      ensures size == if mounted && ShortName(name) in files then AsInt(|files[ShortName(name)].data|) else -1
    {
      hide Mapped, Inv, RootSlots, Located, Spells, Chain, Locs, ClusterOf, SizeOf, Le32;
      if !mounted {
        return -1;
      }
      var found, lba, off := FindEntryLocation(name);
      if !found {
        return -1;
      }
      ghost var f := files[ShortName(name)];
      FileChain(vol, g.sectorsPerCluster, g.rootCluster, rootChain, files, ShortName(name));
      SlotBytes(f.slot, lba, off);
      EntryInBuffer(sectorBuf[..], off, DirSlots()[f.slot]);
      return AsInt(Le32(sectorBuf[..], off + 28));
    }

    /** `fat32_free_space`: counts every free entry of the table, clusters past the end of the disk included. */
    method FreeSpace() returns (bytes: nat)
      requires mounted ==> Ready()
      modifies workBuf
      ensures bytes == if mounted then |FreeBelow(vol.fats[0], g.EntryCount())| * g.sectorsPerCluster * 512 else 0
    {
      hide Mapped, FreeBelow;
      if !mounted {
        return 0;
      }
      var count, sector := 0, 0;
      NoneFree(vol.fats[0]);
      while sector < g.fatSize
        invariant sector <= g.fatSize && count == |FreeBelow(vol.fats[0], 128 * sector)|
      {
        count := CountSector(sector, count);
        sector := sector + 1;
      }
      bytes := count * g.sectorsPerCluster * 512;
    }

    /** The count over one sector of the table. */
    method CountSector(sector: nat, start: nat) returns (count: nat)
      requires Ready() && sector < g.fatSize && start == |FreeBelow(vol.fats[0], 128 * sector)|
      modifies workBuf
      ensures count == |FreeBelow(vol.fats[0], 128 * sector + 128)|
    {
      hide Mapped, FreeBelow, EntryAt;
      TableEntry(sector, 0);
      var ok := ReadSector(g.reservedSectors + sector, workBuf);
      count := start;
      var i := 0;
      while i < 128
        invariant i <= 128 && workBuf[..] == disk[g.reservedSectors + sector]
        invariant count == |FreeBelow(vol.fats[0], 128 * sector + i)|
      {
        TableEntry(sector, i);
        FreeBelowNext(vol.fats[0], 128 * sector + i);
        if sector * 128 + i >= 2 && EntryAt(workBuf[..], i) == 0 {
          count := count + 1;
        }
        i := i + 1;
      }
    }
  }
}
