/** The driver on the image it is shipped with: what the script stored is what the driver reads. */
module FirstBoot {
  import opened Bytes
  import opened FatLayout
  import opened FatVolume
  import opened FatTable
  import opened ShortNames
  import opened Fat32
  import opened DiskImage

  /** The image is written to the driver's disk and mounted. */
  method MountImage(d: Driver, sources: seq<Source>)
    requires Buildable(sources) && d.sectorBuf.Length == 512 && d.workBuf.Length == 512 && d.sectorBuf != d.workBuf
    modifies d`disk, d`mounted, d`g, d`vol, d`rootChain, d`files, d`origin, d.sectorBuf
    ensures d.mounted && d.Valid() && Mirrored(d.vol) && d.g == IMAGE && |d.vol.fats| == 2
    ensures d.files == FilesOf(sources, |sources|)
    ensures LeftOver(d.vol.fats[0]) && DiskImage.Linked(d.vol.fats[0], sources, |sources|)
    ensures d.rootChain == [2] && |d.DirSlots()| == 16
    ensures forall k: nat :: k < 16 ==> d.DirSlots()[k] == SlotBytes(sources, k)
  {
    hide Built, Inv, View, Fits, Mirrored, BootSector, FilesOf, Buildable, Driver.Valid, SlotBytes, RootSlots;
    hide DiskImage.Linked;
    var image, fat := Build(sources);
    d.disk := Sectors(image);
    FirstSector(image, fat, sources);
    ImageInv(image, fat, sources);
    BootFields();
    var ok := d.Mount(true, CLUSTER_LIMIT, [2], FilesOf(sources, |sources|));
    ImageLeftOver(image, fat, sources);
    ImageSlots(image, fat, sources);
  }

  /** The table and the root directory of the mounted image. */
  lemma ImageSlots(image: seq<byte>, fat: seq<nat>, sources: seq<Source>)
    requires Built(image, fat, sources)
    ensures Fits(IMAGE, Sectors(image))
    ensures var v := View(IMAGE, Sectors(image));
            && DiskImage.Linked(v.fats[0], sources, |sources|) && |RootSlots(v, 1, [2])| == 16
            && forall k: nat :: k < 16 ==> RootSlots(v, 1, [2])[k] == SlotBytes(sources, k)
  {
    hide FatBytes, BootSector, Sectors, FatCopy, ClusterSectors, SlotBytes, RootSlots, DiskImage.Linked, Start;
    ImageFits(image);
    TableSize(fat, sources, |sources|);
    TableView(image, fat, 0);
    ClusterView(image, 2);
    RootView(image, sources, View(IMAGE, Sectors(image)));
  }

  lemma FirstSector(image: seq<byte>, fat: seq<nat>, sources: seq<Source>)
    requires Built(image, fat, sources)
    ensures |Sectors(image)| > 0 && Sectors(image)[0] == BootSector()
  {
    hide BootSector, FatBytes, DiskImage.Linked, Buildable;
    SectorAt(image, 0);
  }

  /**
   * A source file reads back from the mounted image byte for byte under its own name if script and driver agree on
   * it, and is not found under it otherwise, unless another file was filed there.
   */
  method BootAndRead(d: Driver, sources: seq<Source>, j: nat, buffer: array<byte>) returns (code: int)
    requires Buildable(sources) && d.sectorBuf.Length == 512 && d.workBuf.Length == 512 && d.sectorBuf != d.workBuf
    requires j < |sources| && buffer != d.sectorBuf && buffer != d.workBuf && |sources[j].data| <= buffer.Length
    modifies d`disk, d`mounted, d`g, d`vol, d`rootChain, d`files, d`origin, d.sectorBuf, buffer
    ensures Agrees(UpperAll(sources[j].name)) ==> code == |sources[j].data| && buffer[..code] == sources[j].data
    ensures (forall i :: 0 <= i < |sources| ==> ImageName(sources[i].name) != ShortName(sources[j].name)) ==> code == -1
    ensures !Agrees(UpperAll(sources[j].name)) <==> ImageName(sources[j].name) != ShortName(sources[j].name)
  {
    hide Driver.Valid, FilesOf, Start, ImageName, ShortName, Mirrored, LeftOver, Agrees;
    NamesAgree(sources[j].name);
    FileAt(sources, |sources|, j);
    StartMonotone(sources, j, |sources|);
    MountImage(d, sources);
    ghost var n := ShortName(sources[j].name);
    if n in d.files {
      var i := SourceOf(sources, |sources|, n);
    }
    code := d.ReadFile(sources[j].name, buffer, |sources[j].data|);
  }

  // Free space.

  /**
   * `fat32_free_space` is the space that exists if and only if no entry past the end of the disk is zero; else it is
   * too much.
   */
  method FreeSpaceExact(d: Driver) returns (bytes: nat)
    requires d.mounted && d.Ready()
    modifies d.workBuf
    ensures d.Sized() && bytes >= |FreeBelow(d.vol.fats[0], d.g.clusterLimit)| * d.g.sectorsPerCluster * 512
    ensures bytes == |FreeBelow(d.vol.fats[0], d.g.clusterLimit)| * d.g.sectorsPerCluster * 512 <==>
            forall c :: d.g.clusterLimit <= c < d.g.EntryCount() ==> d.vol.fats[0][c] != 0
  {
    hide Driver.Mapped, FreeBelow;
    bytes := d.FreeSpace();
    FreeBytes(d.vol.fats[0], d.g.clusterLimit, d.g.sectorsPerCluster);
  }

  lemma FreeBytes(fat: seq<nat>, limit: nat, spc: nat)
    requires 2 <= limit <= |fat| && spc >= 1
    ensures |FreeBelow(fat, |fat|)| * spc * 512 >= |FreeBelow(fat, limit)| * spc * 512
    ensures |FreeBelow(fat, |fat|)| * spc * 512 == |FreeBelow(fat, limit)| * spc * 512 <==>
            forall c :: limit <= c < |fat| ==> fat[c] != 0
  {
    var all, below := FreeBelow(fat, |fat|), FreeBelow(fat, limit);
    var past := all - below;
    assert all == below + past;
    Scaled(|below|, |past|, spc);
    if past == {} {
      forall c | limit <= c < |fat| ensures fat[c] != 0 {
        assert c !in past;
      }
    } else {
      var c :| c in past;
      assert limit <= c < |fat| && fat[c] == 0;
    }
  }

  lemma Scaled(a: nat, b: nat, spc: nat)
    requires spc >= 1
    ensures (a + b) * spc * 512 == a * spc * 512 + b * spc * 512
    ensures b > 0 ==> b * spc > 0
  {
  }

  /** On the image 2078 entries past the end of the disk are zero, so that the count is too high by as many clusters. */
  ghost predicate LeftOver(fat: seq<nat>) {
    |fat| == FAT_ENTRIES && |FreeBelow(fat, FAT_ENTRIES)| == |FreeBelow(fat, CLUSTER_LIMIT)| + 2078
  }

  lemma ImageLeftOver(image: seq<byte>, fat: seq<nat>, sources: seq<Source>)
    requires Built(image, fat, sources)
    ensures Fits(IMAGE, Sectors(image)) && LeftOver(View(IMAGE, Sectors(image)).fats[0])
  {
    hide FatBytes, BootSector, Sectors, View, FreeBelow;
    ImageFits(image);
    TableView(image, fat, 0);
    assert forall c :: CLUSTER_LIMIT <= c < FAT_ENTRIES ==> fat[c] == 0;
    ZeroRange(fat, FAT_ENTRIES);
  }

  lemma {:induction false} ZeroRange(fat: seq<nat>, hi: nat)
    requires CLUSTER_LIMIT <= hi <= |fat| && forall c :: CLUSTER_LIMIT <= c < |fat| ==> fat[c] == 0
    ensures |FreeBelow(fat, hi)| == |FreeBelow(fat, CLUSTER_LIMIT)| + (hi - CLUSTER_LIMIT)
  {
    if hi > CLUSTER_LIMIT {
      ZeroRange(fat, hi - 1);
      assert FreeBelow(fat, hi) == FreeBelow(fat, hi - 1) + {hi - 1};
    }
  }
}
