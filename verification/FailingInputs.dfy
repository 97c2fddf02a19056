/** Inputs on which writing to the shipped image leaves no consistent volume. */
module FailingInputs {
  import opened Bytes
  import opened FatLayout
  import opened FatVolume
  import opened FatTable
  import opened FatFailure
  import opened ShortNames
  import opened Fat32
  import opened DiskImage
  import opened FirstBoot

  lemma {:induction false} BoundedSet(s: set<nat>, n: nat)
    requires forall c :: c in s ==> c < n
    ensures |s| <= n
    decreases n
  {
    if n > 0 {
      BoundedSet(s - {n - 1}, n - 1);
      if n - 1 in s {
        assert |s - {n - 1}| == |s| - 1;
      } else {
        assert s - {n - 1} == s;
      }
    } else {
      assert s == {};
    }
  }

  lemma DisjointBound(a: set<nat>, b: set<nat>, n: nat)
    requires a * b == {} && (forall c :: c in a ==> c < n) && forall c :: c in b ==> c < n
    ensures |a| + |b| <= n
  {
    BoundedSet(a + b, n);
  }

  lemma TooMany(size: nat)
    requires size > 512 * CLUSTER_LIMIT
    ensures ClustersFor(size, 1) > CLUSTER_LIMIT
  {
  }

  /** Overwriting a file with more than the disk holds loses the directory: its entry names freed clusters. */
  method OverwriteTooLong(d: Driver, sources: seq<Source>, j: nat, data: seq<byte>) returns (code: int)
    requires Buildable(sources) && d.sectorBuf.Length == 512 && d.workBuf.Length == 512 && d.sectorBuf != d.workBuf
    requires d.reliable && j < |sources| && AsciiName(sources[j].name) && Agrees(UpperAll(sources[j].name))
    requires 512 * CLUSTER_LIMIT < |data| < 0x8000_0000
    modifies d`disk, d`mounted, d`g, d`vol, d`rootChain, d`files, d`origin, d.sectorBuf, d.workBuf
    ensures code < 0 && !d.Recoverable()
  {
    hide Driver.Valid, FilesOf, Start, ImageName, ShortName, Mirrored, LeftOver, Agrees, Driver.DirSlots, Full;
    hide DiskImage.Linked, SlotBytes, Survive, FreeMoved, Driver.Recoverable, FreeTouched, FreeBelow, ClustersFor;
    TooMany(|data|);
    NamesAgree(sources[j].name);
    FileAt(sources, |sources|, j);
    MountImage(d, sources);
    ghost var n := ShortName(sources[j].name);
    d.ChainOnDisk(n);
    DisjointBound(FreeBelow(d.vol.fats[0], CLUSTER_LIMIT), d.OldChain(n), CLUSTER_LIMIT);
    ghost var grown;
    code, grown := d.WriteMounted(sources[j].name, data);
  }

  // A full disk with a full root directory.

  /** Some file has cluster `c`. */
  lemma {:induction false} ClusterTaken(fat: seq<nat>, sources: seq<Source>, k: nat, c: nat)
    requires k <= |sources| && DiskImage.Linked(fat, sources, |sources|) && 3 <= c < Start(sources, k)
    ensures c < |fat| && fat[c] != 0
  {
    if c >= Start(sources, k - 1) {
      assert DiskImage.Run(fat, Start(sources, k - 1), Start(sources, k - 1 + 1));
    } else {
      ClusterTaken(fat, sources, k - 1, c);
    }
  }

  lemma RootTaken(fat: seq<nat>, sources: seq<Source>)
    requires DiskImage.Linked(fat, sources, |sources|)
    ensures |fat| == FAT_ENTRIES && fat[2] == FAT_LAST
  {
    hide Start, DiskImage.Run;
  }

  lemma NothingFree(fat: seq<nat>, sources: seq<Source>)
    requires DiskImage.Linked(fat, sources, |sources|) && Start(sources, |sources|) == CLUSTER_LIMIT
    ensures FreeBelow(fat, CLUSTER_LIMIT) == {}
  {
    hide DiskImage.Linked, Start;
    RootTaken(fat, sources);
    forall c | 3 <= c < CLUSTER_LIMIT ensures c < |fat| && fat[c] != 0 {
      ClusterTaken(fat, sources, |sources|, c);
    }
  }

  lemma RootFull(sources: seq<Source>, slots: seq<seq<byte>>)
    requires Buildable(sources) && |sources| == 15 && |slots| == 16 && Entries(slots)
    requires forall k: nat :: k < 16 ==> slots[k] == SlotBytes(sources, k)
    ensures Full(slots)
  {
    hide SlotBytes, Buildable;
    forall k: nat | k < 16 ensures slots[k][0] != 0x00 && slots[k][0] != 0xE5 {
      SlotFields(sources, k);
    }
  }

  lemma NotFiled(sources: seq<Source>, n: Name)
    requires forall i :: 0 <= i < |sources| ==> ImageName(sources[i].name) != n
    ensures n !in FilesOf(sources, |sources|)
  {
    hide ImageName, FilesOf;
    if n in FilesOf(sources, |sources|) {
      var i := SourceOf(sources, |sources|, n);
    }
  }

  /**
   * With fifteen files that fill the disk, creating one more links the root directory to a cluster past the end of the
   * disk, and there is no consistent root directory any more.
   */
  method GrowPastEnd(d: Driver, sources: seq<Source>, name: seq<byte>, data: seq<byte>) returns (code: int)
    requires Buildable(sources) && d.sectorBuf.Length == 512 && d.workBuf.Length == 512 && d.sectorBuf != d.workBuf
    requires |sources| == 15 && Start(sources, 15) == CLUSTER_LIMIT
    requires d.reliable && AsciiName(name) && |data| < 0x8000_0000
    requires forall i :: 0 <= i < |sources| ==> ImageName(sources[i].name) != ShortName(name)
    modifies d`disk, d`mounted, d`g, d`vol, d`rootChain, d`files, d`origin, d.sectorBuf, d.workBuf
    ensures code == -3 && !d.Recoverable()
  {
    hide Driver.Valid, FilesOf, Start, ImageName, ShortName, Mirrored, Agrees, Full;
    hide DiskImage.Linked, SlotBytes, Survive, FreeMoved, Driver.Recoverable, FreeTouched, FreeBelow, RootSlots;
    MountImage(d, sources);
    NotFiled(sources, ShortName(name));
    NothingFree(d.vol.fats[0], sources);
    RootFull(sources, d.DirSlots());
    ghost var fat := d.vol.fats[0];
    assert |FreeBelow(fat, FAT_ENTRIES)| > 0;
    ghost var grown;
    code, grown := d.WriteMounted(name, data);
  }

  /** Such files: fourteen empty ones, and one that takes the rest of the disk. */
  function FullSources(): seq<Source> {
    seq(15, i requires 0 <= i < 15 => Source([0x41 + i], if i < 14 then [] else seq(66036224, _ => 0)))
  }

  lemma {:induction false} EmptyStarts(k: nat)
    requires k <= 14
    ensures Start(FullSources(), k) == 3 + k
  {
    if k > 0 {
      EmptyStarts(k - 1);
      assert FullSources()[k - 1].data == [];
    }
  }

  lemma OneLetter(i: nat)
    requires i < 15
    ensures var name := FullSources()[i].name;
            && AsciiName(name) && Agrees(UpperAll(name))
            && ImageName(name) == ShortName(name) && ShortName(name)[0] == 0x41 + i
  {
    var name := FullSources()[i].name;
    assert name == [0x41 + i];
    assert FirstDot(name) == 1 by { assert FirstDot(name[1..]) == 0; }
    PlainNames(name);
  }

  lemma FullSize()
    ensures |FullSources()| == 15 && Start(FullSources(), 14) == 17 && Start(FullSources(), 15) == CLUSTER_LIMIT
  {
    EmptyStarts(14);
    assert |FullSources()[14].data| == 512 * 128977;
    assert Count(FullSources()[14].data) == 128977;
  }

  /** They are fit for the image, fill the disk, and are known to the driver by their own names. */
  lemma FullSourcesFit()
    ensures Buildable(FullSources()) && |FullSources()| == 15 && Start(FullSources(), 15) == CLUSTER_LIMIT
    ensures forall i :: 0 <= i < 15 ==> Agrees(UpperAll(FullSources()[i].name))
  {
    hide ImageName, ShortName, Agrees, UpperAll, AsciiName, FullSources, Start;
    FullSize();
    var sources := FullSources();
    forall i: nat | i < 15 ensures Agrees(UpperAll(sources[i].name)) && ImageName(sources[i].name)[0] == 0x41 + i {
      OneLetter(i);
    }
    forall i: nat, j: nat | i < j < 15 ensures ImageName(sources[i].name) != ImageName(sources[j].name) {
      OneLetter(i);
      OneLetter(j);
    }
  }
}
