/**
 * How a FAT32 volume lies on a disk of 512-byte sectors: mirrored tables of 28-bit entries, then
 * clusters of sectors. `View` forgets the byte layout; the lemmas say what one sector write does to it.
 */
module FatLayout {
  import opened Bytes

  const FAT_EOC: nat := 0x0FFF_FFF8
  const FAT_LAST: nat := 0x0FFF_FFFF

  type Sector = s: seq<byte> | |s| == 512 witness seq(512, _ => 0)
  type Disk = seq<Sector>

  /**
   * The mounted parameters. `clusterLimit`, one past the last cluster whose sectors exist on the
   * disk, is not kept by the driver: it appears in specifications only.
   */
  datatype Geometry = Geometry(
    sectorsPerCluster: nat,
    reservedSectors: nat,
    numFats: nat,
    fatSize: nat,
    rootCluster: nat,
    clusterLimit: nat)
  {
    function EntryCount(): nat { fatSize * 128 }
    function FirstDataSector(): nat { reservedSectors + numFats * fatSize }

    function FatLba(copy: nat, sector: nat): nat { reservedSectors + copy * fatSize + sector }

    /** `cluster_to_lba`, plus the sector within the cluster. */
    function Lba(cluster: nat, sector: nat): nat
      requires cluster >= 2
    {
      FirstDataSector() + (cluster - 2) * sectorsPerCluster + sector
    }
  }

  /**
   * The volume's tables and its first `clusterLimit` clusters lie on the disk, and the 28-bit sector numbers of the
   * disk interface reach every cluster the table names.
   */
  ghost predicate Fits(g: Geometry, d: Disk)
  {
    && g.numFats >= 1 && 1 <= g.sectorsPerCluster < 256
    && 2 <= g.rootCluster < g.clusterLimit <= g.EntryCount() <= FAT_EOC
    && g.Lba(g.clusterLimit, 0) <= |d|
    && (g.clusterLimit < g.EntryCount() ==> |d| == g.Lba(g.clusterLimit, 0))
    && |d| <= TWO28 && g.Lba(g.EntryCount(), 0) <= TWO28
  }

  datatype Volume = Volume(fats: seq<seq<nat>>, clusters: seq<seq<Sector>>)

  /** Entry `i` of a FAT sector, without its four reserved bits. */
  function EntryAt(s: Sector, i: nat): (v: nat)
    requires i < 128
    ensures v < TWO28
  {
    Le32(s, 4 * i) % TWO28
  }

  /** The sector with entry `i` set to `v`, the four reserved bits kept. */
  function PutEntry(s: Sector, i: nat, v: nat): (r: Sector)
    requires i < 128 && v < TWO28
  {
    var existing := Le32(s, 4 * i);
    Splice(s, 4 * i, Put32(existing / TWO28 * TWO28 + v))
  }

  lemma PutEntryAt(s: Sector, i: nat, v: nat, j: nat)
    requires i < 128 && v < TWO28 && j < 128
    ensures EntryAt(PutEntry(s, i, v), j) == if j == i then v else EntryAt(s, j)
    ensures Le32(PutEntry(s, i, v), 4 * j) / TWO28 == Le32(s, 4 * j) / TWO28
  {
    var r := PutEntry(s, i, v);
    if j == i {
      Le32Slice(r, 4 * i);
    } else {
      assert r[4 * j..4 * j + 4] == s[4 * j..4 * j + 4];
      Le32Local(r, s, 4 * j);
    }
  }

  /**
   * What no operation on the volume touches: sectors in front of the tables, sectors behind the last cluster, and the
   * four reserved bits of every table entry.
   */
  ghost predicate OutsideKept(g: Geometry, d: Disk, d': Disk) {
    && |d'| == |d|
    && (forall n :: 0 <= n < |d| && n < g.reservedSectors ==> d'[n] == d[n])
    && (forall n :: g.FirstDataSector() + (g.clusterLimit - 2) * g.sectorsPerCluster <= n < |d| && 0 <= n ==>
          d'[n] == d[n])
    && (forall n, i :: g.reservedSectors <= n < g.FirstDataSector() && n < |d| && 0 <= i < 128 ==>
          Le32(d'[n], 4 * i) / TWO28 == Le32(d[n], 4 * i) / TWO28)
  }

  // Sector numbers.

  lemma ScaleMonotone(a: nat, b: nat, k: nat)
    requires a < b
    ensures a * k + k <= b * k
  {
    assert (b - a) * k >= k by { ScalePositive(b - a, k); }
  }

  lemma ScalePositive(a: nat, k: nat)
    requires a >= 1
    ensures a * k >= k
  {
  }

  lemma FatLbaBefore(g: Geometry, copy: nat, sector: nat)
    requires copy < g.numFats && sector < g.fatSize
    ensures g.FatLba(copy, sector) < g.FirstDataSector()
  {
    ScaleMonotone(copy, g.numFats, g.fatSize);
  }

  lemma FatLbaInjective(g: Geometry, copy: nat, sector: nat, copy': nat, sector': nat)
    requires sector < g.fatSize && sector' < g.fatSize
    ensures g.FatLba(copy, sector) == g.FatLba(copy', sector') <==> copy == copy' && sector == sector'
  {
    if copy < copy' {
      ScaleMonotone(copy, copy', g.fatSize);
    } else if copy' < copy {
      ScaleMonotone(copy', copy, g.fatSize);
    }
  }

  lemma LbaBefore(g: Geometry, c: nat, s: nat, limit: nat)
    requires 2 <= c < limit && s < g.sectorsPerCluster
    ensures g.FirstDataSector() <= g.Lba(c, s) < g.Lba(limit, 0)
  {
    ScaleMonotone(c - 2, limit - 2, g.sectorsPerCluster);
  }

  lemma LbaInjective(g: Geometry, c: nat, s: nat, c': nat, s': nat)
    requires 2 <= c && 2 <= c' && s < g.sectorsPerCluster && s' < g.sectorsPerCluster
    ensures g.Lba(c, s) == g.Lba(c', s') <==> c == c' && s == s'
  {
    if c < c' {
      LbaBefore(g, c, s, c');
    } else if c' < c {
      LbaBefore(g, c', s', c);
    }
  }

  /** A cluster whose number is past the limit has no sector on the disk. */
  lemma LbaOffDisk(g: Geometry, d: Disk, c: nat, s: nat)
    requires Fits(g, d) && g.clusterLimit <= c < g.EntryCount()
    ensures g.Lba(c, s) >= |d|
  {
    if g.clusterLimit < c {
      ScaleMonotone(g.clusterLimit - 2, c - 2, g.sectorsPerCluster);
    }
  }

  // The view.

  ghost function FatCopy(g: Geometry, d: Disk, copy: nat): (fat: seq<nat>)
    requires Fits(g, d) && copy < g.numFats
    ensures |fat| == g.EntryCount()
    ensures forall c :: 0 <= c < |fat| ==> fat[c] < TWO28
  {
    seq(g.EntryCount(), c requires 0 <= c < g.EntryCount() =>
      FatLbaBefore(g, copy, c / 128);
      assert g.FirstDataSector() <= |d| by { LbaBefore(g, 2, 0, g.clusterLimit); }
      EntryAt(d[g.FatLba(copy, c / 128)], c % 128))
  }

  lemma FatCopyAt(g: Geometry, d: Disk, i: nat, x: nat)
    requires Fits(g, d) && i < g.numFats && x < g.EntryCount()
    ensures g.FatLba(i, x / 128) < |d|
    ensures FatCopy(g, d, i)[x] == EntryAt(d[g.FatLba(i, x / 128)], x % 128)
  {
    hide EntryAt;
    FatLbaBefore(g, i, x / 128);
    LbaBefore(g, 2, 0, g.clusterLimit);
  }

  ghost function ClusterSectors(g: Geometry, d: Disk, c: nat): (secs: seq<Sector>)
    requires Fits(g, d) && c < g.clusterLimit
    ensures |secs| == if c < 2 then 0 else g.sectorsPerCluster
  {
    if c < 2 then []
    else
      seq(g.sectorsPerCluster, s requires 0 <= s < g.sectorsPerCluster =>
        LbaBefore(g, c, s, g.clusterLimit);
        d[g.Lba(c, s)])
  }

  ghost function View(g: Geometry, d: Disk): (v: Volume)
    requires Fits(g, d)
    ensures |v.fats| == g.numFats && |v.clusters| == g.clusterLimit
    ensures forall i :: 0 <= i < g.numFats ==> v.fats[i] == FatCopy(g, d, i)
    ensures forall c :: 0 <= c < g.clusterLimit ==> v.clusters[c] == ClusterSectors(g, d, c)
  {
    Volume(seq(g.numFats, i requires 0 <= i < g.numFats => FatCopy(g, d, i)),
           seq(g.clusterLimit, c requires 0 <= c < g.clusterLimit => ClusterSectors(g, d, c)))
  }

  /** Setting one entry in one copy of the table. */
  ghost function SetCopy(v: Volume, copy: nat, c: nat, value: nat): Volume
    requires copy < |v.fats| && c < |v.fats[copy]|
  {
    var fat: seq<nat> := v.fats[copy][c := value];
    v.(fats := v.fats[copy := fat])
  }

  /** Overwriting one sector of one cluster. */
  ghost function SetSector(v: Volume, c: nat, s: nat, sec: Sector): Volume
    requires c < |v.clusters| && s < |v.clusters[c]|
  {
    var secs: seq<Sector> := v.clusters[c][s := sec];
    v.(clusters := v.clusters[c := secs])
  }

  lemma OutsideKeptSince(g: Geometry, d: Disk, d1: Disk, d2: Disk)
    requires OutsideKept(g, d, d1)
    ensures OutsideKept(g, d, d2) <==> OutsideKept(g, d1, d2)
  {
    hide Le32;
  }

  lemma ReservedBits(s: Sector, i: nat, v: nat)
    requires i < 128 && v < TWO28
    ensures forall j :: 0 <= j < 128 ==> Le32(PutEntry(s, i, v), 4 * j) / TWO28 == Le32(s, 4 * j) / TWO28
  {
    forall j | 0 <= j < 128 ensures Le32(PutEntry(s, i, v), 4 * j) / TWO28 == Le32(s, 4 * j) / TWO28 {
      PutEntryAt(s, i, v, j);
    }
  }

  /** A sector of the tables may be replaced by one with the same reserved bits. */
  lemma TableWriteInside(g: Geometry, d: Disk, lba: nat, sec: Sector)
    requires lba < |d| && g.reservedSectors <= lba < g.FirstDataSector()
    requires forall i :: 0 <= i < 128 ==> Le32(sec, 4 * i) / TWO28 == Le32(d[lba], 4 * i) / TWO28
    requires (g.clusterLimit - 2) * g.sectorsPerCluster >= 0
    ensures OutsideKept(g, d, d[lba := sec])
  {
    hide Le32;
  }

  lemma FatWriteInside(g: Geometry, d: Disk, copy: nat, c: nat, value: nat)
    requires Fits(g, d) && copy < g.numFats && c < g.EntryCount() && value < TWO28
    requires g.FatLba(copy, c / 128) < |d|
    ensures var lba := g.FatLba(copy, c / 128);
            OutsideKept(g, d, d[lba := PutEntry(d[lba], c % 128, value)])
  {
    var lba := g.FatLba(copy, c / 128);
    FatLbaBefore(g, copy, c / 128);
    LbaBefore(g, 2, 0, g.clusterLimit);
    ReservedBits(d[lba], c % 128, value);
    hide Le32, PutEntry, OutsideKept, EntryAt;
    assert g.reservedSectors <= lba;
    TableWriteInside(g, d, lba, PutEntry(d[lba], c % 128, value));
  }

  lemma FatSectorWrite(g: Geometry, d: Disk, copy: nat, c: nat, value: nat)
    requires Fits(g, d) && copy < g.numFats && c < g.EntryCount() && value < TWO28
    requires g.FatLba(copy, c / 128) < |d|
    ensures var lba := g.FatLba(copy, c / 128);
            var d' := d[lba := PutEntry(d[lba], c % 128, value)];
            Fits(g, d') && View(g, d') == SetCopy(View(g, d), copy, c, value) && OutsideKept(g, d, d')
  {
    FatWriteInside(g, d, copy, c, value);
    hide OutsideKept;
    var lba := g.FatLba(copy, c / 128);
    var d' := d[lba := PutEntry(d[lba], c % 128, value)];
    hide PutEntry, FatCopy, ClusterSectors;
    var w, w' := SetCopy(View(g, d), copy, c, value), View(g, d');
    forall i | 0 <= i < g.numFats ensures w'.fats[i] == w.fats[i] {
      FatCopyAfterFatWrite(g, d, copy, c, value, i);
    }
    forall k | 0 <= k < g.clusterLimit ensures w'.clusters[k] == w.clusters[k] {
      FatLbaBefore(g, copy, c / 128);
      ClusterAfterOtherWrite(g, d, lba, d'[lba], k);
    }
    assert w'.fats == w.fats && w'.clusters == w.clusters;
  }

  lemma FatCopyAfterFatWrite(g: Geometry, d: Disk, copy: nat, c: nat, value: nat, i: nat)
    requires Fits(g, d) && copy < g.numFats && c < g.EntryCount() && value < TWO28 && i < g.numFats
    requires g.FatLba(copy, c / 128) < |d|
    ensures var lba := g.FatLba(copy, c / 128);
            var d' := d[lba := PutEntry(d[lba], c % 128, value)];
            FatCopy(g, d', i) == if i == copy then FatCopy(g, d, i)[c := value] else FatCopy(g, d, i)
  {
    hide PutEntry, EntryAt;
    var lba := g.FatLba(copy, c / 128);
    var d' := d[lba := PutEntry(d[lba], c % 128, value)];
    forall x | 0 <= x < g.EntryCount()
      ensures FatCopy(g, d', i)[x] == if i == copy && x == c then value else FatCopy(g, d, i)[x]
    {
      FatEntryAfterFatWrite(g, d, copy, c, value, i, x);
    }
  }

  lemma FatEntryAfterFatWrite(g: Geometry, d: Disk, copy: nat, c: nat, value: nat, i: nat, x: nat)
    requires Fits(g, d) && copy < g.numFats && c < g.EntryCount() && value < TWO28
    requires i < g.numFats && x < g.EntryCount()
    requires g.FatLba(copy, c / 128) < |d|
    ensures var lba := g.FatLba(copy, c / 128);
            var d' := d[lba := PutEntry(d[lba], c % 128, value)];
            FatCopy(g, d', i)[x] == if i == copy && x == c then value else FatCopy(g, d, i)[x]
  {
    hide PutEntry, EntryAt;
    var lba := g.FatLba(copy, c / 128);
    var d' := d[lba := PutEntry(d[lba], c % 128, value)];
    FatCopyAt(g, d, i, x);
    FatCopyAt(g, d', i, x);
    hide FatCopy, Geometry.FatLba, Fits;
    FatLbaInjective(g, copy, c / 128, i, x / 128);
    PutEntryAt(d[lba], c % 128, value, x % 128);
  }

  lemma ClusterAfterOtherWrite(g: Geometry, d: Disk, lba: nat, sec: Sector, k: nat)
    requires Fits(g, d) && lba < |d| && k < g.clusterLimit
    requires lba < g.FirstDataSector()
    ensures ClusterSectors(g, d[lba := sec], k) == ClusterSectors(g, d, k)
  {
    if k >= 2 {
      forall s | 0 <= s < g.sectorsPerCluster
        ensures ClusterSectors(g, d[lba := sec], k)[s] == ClusterSectors(g, d, k)[s]
      {
        LbaBefore(g, k, s, g.clusterLimit);
      }
    }
  }

  lemma DataWriteInside(g: Geometry, d: Disk, c: nat, s: nat, sec: Sector)
    requires Fits(g, d) && 2 <= c < g.clusterLimit && s < g.sectorsPerCluster
    requires g.Lba(c, s) < |d|
    ensures OutsideKept(g, d, d[g.Lba(c, s) := sec])
  {
    LbaBefore(g, c, s, g.clusterLimit);
    hide Le32;
  }

  lemma DataSectorWrite(g: Geometry, d: Disk, c: nat, s: nat, sec: Sector)
    requires Fits(g, d) && 2 <= c < g.clusterLimit && s < g.sectorsPerCluster
    requires g.Lba(c, s) < |d|
    ensures var d' := d[g.Lba(c, s) := sec];
            Fits(g, d') && View(g, d') == SetSector(View(g, d), c, s, sec) && OutsideKept(g, d, d')
  {
    DataWriteInside(g, d, c, s, sec);
    hide FatCopy, ClusterSectors, OutsideKept;
    var d' := d[g.Lba(c, s) := sec];
    var w, w' := SetSector(View(g, d), c, s, sec), View(g, d');
    forall i | 0 <= i < g.numFats ensures w'.fats[i] == w.fats[i] {
      FatCopyAfterDataWrite(g, d, c, s, sec, i);
    }
    forall k | 0 <= k < g.clusterLimit ensures w'.clusters[k] == w.clusters[k] {
      ClusterAfterDataWrite(g, d, c, s, sec, k);
    }
    assert w'.fats == w.fats && w'.clusters == w.clusters;
  }

  lemma FatCopyAfterDataWrite(g: Geometry, d: Disk, c: nat, s: nat, sec: Sector, i: nat)
    requires Fits(g, d) && 2 <= c < g.clusterLimit && s < g.sectorsPerCluster && i < g.numFats
    requires g.Lba(c, s) < |d|
    ensures FatCopy(g, d[g.Lba(c, s) := sec], i) == FatCopy(g, d, i)
  {
    forall x | 0 <= x < g.EntryCount()
      ensures FatCopy(g, d[g.Lba(c, s) := sec], i)[x] == FatCopy(g, d, i)[x]
    {
      FatLbaBefore(g, i, x / 128);
      LbaBefore(g, c, s, g.clusterLimit);
    }
  }

  lemma ClusterAfterDataWrite(g: Geometry, d: Disk, c: nat, s: nat, sec: Sector, k: nat)
    requires Fits(g, d) && 2 <= c < g.clusterLimit && s < g.sectorsPerCluster && k < g.clusterLimit
    requires g.Lba(c, s) < |d|
    ensures ClusterSectors(g, d[g.Lba(c, s) := sec], k) ==
            if k == c then ClusterSectors(g, d, k)[s := sec] else ClusterSectors(g, d, k)
  {
    if k >= 2 {
      forall t | 0 <= t < g.sectorsPerCluster
        ensures ClusterSectors(g, d[g.Lba(c, s) := sec], k)[t] ==
                if k == c && t == s then sec else ClusterSectors(g, d, k)[t]
      {
        LbaBefore(g, k, t, g.clusterLimit);
        LbaInjective(g, c, s, k, t);
      }
    }
  }
}
