/**
 * A FAT32 root directory over a volume view: cluster chains, directory slots, file contents, and the
 * invariant every successful operation keeps. `files` is the abstract map from 8.3 names to files.
 */
module FatVolume {
  import opened Bytes
  import opened FatLayout

  type Name = seq<byte>

  /** A file: the directory slot naming it, the clusters it owns, and its bytes. */
  datatype File = File(slot: nat, chain: seq<nat>, data: seq<byte>)

  type Files = map<Name, File>

  const NO_HOLE: int := -1

  /** Sector `sector` of cluster `cluster`. */
  datatype Loc = Loc(cluster: nat, sector: nat)

  // Chains.

  ghost predicate Distinct(cs: seq<nat>) {
    forall i, j :: 0 <= i < j < |cs| ==> cs[i] != cs[j]
  }

  /** `cs` is the whole chain that starts at `first`: linked, acyclic, below `limit`, properly ended. */
  ghost predicate Chain(fat: seq<nat>, limit: nat, first: nat, cs: seq<nat>)
    requires limit <= |fat|
  {
    && (forall i :: 0 <= i < |cs| ==> 2 <= cs[i] < limit)
    && (cs == [] ==> first < 2)
    && (cs != [] ==> first == cs[0] && fat[cs[|cs| - 1]] >= FAT_EOC)
    && (forall i :: 0 <= i < |cs| - 1 ==> fat[cs[i]] == cs[i + 1])
    && Distinct(cs)
  }

  // Contents.

  /** The sectors of a chain, in reading order. */
  function Locs(cs: seq<nat>, spc: nat): (locs: seq<Loc>)
    ensures forall j :: 0 <= j < |locs| ==> locs[j].cluster in cs && locs[j].sector < spc
  {
    if cs == [] then []
    else Locs(cs[..|cs| - 1], spc) + seq(spc, s requires 0 <= s => Loc(cs[|cs| - 1], s))
  }

  ghost predicate Readable(v: Volume, locs: seq<Loc>) {
    forall j :: 0 <= j < |locs| ==> locs[j].cluster < |v.clusters| && locs[j].sector < |v.clusters[locs[j].cluster]|
  }

  ghost function Gather(v: Volume, locs: seq<Loc>): (secs: seq<Sector>)
    requires Readable(v, locs)
    ensures |secs| == |locs|
  {
    seq(|locs|, j requires 0 <= j < |locs| => v.clusters[locs[j].cluster][locs[j].sector])
  }

  ghost function Flatten(secs: seq<Sector>): (b: seq<byte>)
    ensures |b| == 512 * |secs|
  {
    if secs == [] then [] else Flatten(secs[..|secs| - 1]) + secs[|secs| - 1]
  }

  // Directory slots.

  ghost function Slots(secs: seq<Sector>): (slots: seq<seq<byte>>)
    ensures |slots| == 16 * |secs|
    ensures forall k :: 0 <= k < |slots| ==> |slots[k]| == 32
  {
    seq(16 * |secs|, k requires 0 <= k < 16 * |secs| => secs[k / 16][32 * (k % 16)..32 * (k % 16) + 32])
  }

  /** An entry `find_entry` compares with the name it looks for. */
  predicate Live(e: seq<byte>)
    requires |e| == 32
  {
    e[0] != 0x00 && e[0] != 0xE5 && e[11] != 0x0F && e[11] / 8 % 2 == 0
  }

  /** The volume-label bit of the attributes, set in long-name entries too, decides for an entry in use. */
  lemma LiveExactly(e: seq<byte>)
    requires |e| == 32
    ensures Live(e) <==> e[0] != 0x00 && e[0] != 0xE5 && e[11] % 16 < 8
  {
  }

  function NameOf(e: seq<byte>): Name
    requires |e| == 32
  {
    e[..11]
  }

  function ClusterOf(e: seq<byte>): nat
    requires |e| == 32
  {
    Le16(e, 20) * TWO16 + Le16(e, 26)
  }

  function SizeOf(e: seq<byte>): nat
    requires |e| == 32
  {
    Le32(e, 28)
  }

  ghost predicate Entries(slots: seq<seq<byte>>) {
    forall k :: 0 <= k < |slots| ==> |slots[k]| == 32
  }

  /** Nothing follows the first never-used slot. */
  ghost predicate ZeroTail(slots: seq<seq<byte>>)
    requires Entries(slots)
  {
    forall j, k :: 0 <= j < k < |slots| && slots[j][0] == 0 ==> slots[k][0] == 0
  }

  /**
   * The live slots and the files correspond one to one, by name. Slot `hole`, the one an operation
   * in progress is about to write, is exempt; NO_HOLE exempts none.
   */
  ghost predicate Indexed(slots: seq<seq<byte>>, files: Files, hole: int)
    requires Entries(slots)
  {
    && (forall n :: n in files ==>
          files[n].slot < |slots| && files[n].slot != hole && Live(slots[files[n].slot])
              && NameOf(slots[files[n].slot]) == n)
    && (forall k :: 0 <= k < |slots| && k != hole && Live(slots[k]) ==>
          NameOf(slots[k]) in files && files[NameOf(slots[k])].slot == k)
  }

  // The invariant.

  ghost predicate Shape(v: Volume, spc: nat) {
    && v.fats != [] && spc >= 1
    && 2 < |v.clusters| <= |v.fats[0]| <= FAT_EOC
    && (forall i :: 0 <= i < |v.fats| ==> |v.fats[i]| == |v.fats[0]|)
    && (forall c :: 2 <= c < |v.clusters| ==> |v.clusters[c]| == spc)
  }

  ghost predicate Mirrored(v: Volume) {
    forall i :: 0 <= i < |v.fats| ==> v.fats[i] == v.fats[0]
  }

  ghost predicate DisjointSeqs(a: seq<nat>, b: seq<nat>) {
    forall c :: c in a ==> c !in b
  }

  ghost predicate Disjoint(rc: seq<nat>, files: Files) {
    && (forall n :: n in files ==> DisjointSeqs(files[n].chain, rc))
    && (forall n, m :: n in files && m in files && n != m ==> DisjointSeqs(files[n].chain, files[m].chain))
  }

  /** A file's chain is a chain of the volume and spells its bytes; the slot records start and size. */
  ghost predicate FileOk(v: Volume, spc: nat, e: seq<byte>, f: File)
    requires Shape(v, spc) && |e| == 32
  {
    && Chain(v.fats[0], |v.clusters|, ClusterOf(e), f.chain)
    && SizeOf(e) == |f.data|
    && Spells(v, spc, f.chain, f.data)
  }

  /** The sectors of `cs` start with `data`. */
  ghost predicate Spells(v: Volume, spc: nat, cs: seq<nat>, data: seq<byte>)
  {
    && Readable(v, Locs(cs, spc))
    && data <= Flatten(Gather(v, Locs(cs, spc)))
  }

  ghost function RootSlots(v: Volume, spc: nat, rc: seq<nat>): (slots: seq<seq<byte>>)
    ensures Readable(v, Locs(rc, spc)) ==> |slots| == 16 * |Locs(rc, spc)|
    ensures Entries(slots)
  {
    if Readable(v, Locs(rc, spc)) then Slots(Gather(v, Locs(rc, spc))) else []
  }

  ghost predicate RootOk(v: Volume, spc: nat, root: nat, rc: seq<nat>)
    requires Shape(v, spc)
  {
    rc != [] && Chain(v.fats[0], |v.clusters|, root, rc)
  }

  ghost predicate Directory(v: Volume, spc: nat, rc: seq<nat>, files: Files, hole: int)
    requires Shape(v, spc)
  {
    && Readable(v, Locs(rc, spc))
    && var slots := RootSlots(v, spc, rc);
    && ZeroTail(slots)
    && Indexed(slots, files, hole)
    && (forall n :: n in files ==> FileOk(v, spc, slots[files[n].slot], files[n]))
  }

  ghost predicate Inv(v: Volume, spc: nat, root: nat, rc: seq<nat>, files: Files, hole: int) {
    && Shape(v, spc)
    && RootOk(v, spc, root, rc)
    && Disjoint(rc, files)
    && Directory(v, spc, rc, files, hole)
  }

  /** Cluster `c` belongs to the root directory or to a file. */
  ghost predicate Owned(rc: seq<nat>, files: Files, c: nat) {
    c in rc || exists n :: n in files && c in files[n].chain
  }

  // Framing.

  ghost predicate SameShape(v: Volume, v': Volume) {
    && |v'.fats| == |v.fats| && |v'.clusters| == |v.clusters|
    && (forall i :: 0 <= i < |v.fats| ==> |v'.fats[i]| == |v.fats[i]|)
    && (forall c :: 0 <= c < |v.clusters| ==> |v'.clusters[c]| == |v.clusters[c]|)
  }

  /** `v'` keeps the primary table entry and the sectors of cluster `c`. */
  ghost predicate SameCluster(v: Volume, v': Volume, c: nat)
    requires SameShape(v, v') && v.fats != []
  {
    && (c < |v.fats[0]| ==> v'.fats[0][c] == v.fats[0][c])
    && (c < |v.clusters| ==> v'.clusters[c] == v.clusters[c])
  }

  lemma ChainFrame(v: Volume, v': Volume, limit: nat, first: nat, cs: seq<nat>)
    requires v.fats != [] && SameShape(v, v') && limit <= |v.fats[0]|
    requires Chain(v.fats[0], limit, first, cs)
    requires forall c :: c in cs ==> SameCluster(v, v', c)
    ensures Chain(v'.fats[0], limit, first, cs)
  {
    assert forall i :: 0 <= i < |cs| ==> SameCluster(v, v', cs[i]);
  }

  lemma GatherFrame(v: Volume, v': Volume, spc: nat, cs: seq<nat>)
    requires v.fats != [] && SameShape(v, v') && Readable(v, Locs(cs, spc))
    requires forall c :: c in cs ==> SameCluster(v, v', c)
    ensures Readable(v', Locs(cs, spc)) && Gather(v', Locs(cs, spc)) == Gather(v, Locs(cs, spc))
  {
  }

  /** A change that keeps every owned cluster keeps the invariant: chains, names and contents alike. */
  lemma Frame(v: Volume, v': Volume, spc: nat, root: nat, rc: seq<nat>, files: Files, hole: int)
    requires Inv(v, spc, root, rc, files, hole) && SameShape(v, v')
    requires forall c :: Owned(rc, files, c) ==> SameCluster(v, v', c)
    ensures Inv(v', spc, root, rc, files, hole)
  {
    hide Chain, FileOk, Locs, Slots, Gather, ZeroTail, SameCluster, Disjoint;
    assert forall c :: c in rc ==> Owned(rc, files, c);
    ChainFrame(v, v', |v.clusters|, root, rc);
    GatherFrame(v, v', spc, rc);
    forall n | n in files
      ensures FileOk(v', spc, RootSlots(v', spc, rc)[files[n].slot], files[n])
    {
      var e := RootSlots(v, spc, rc)[files[n].slot];
      assert forall c :: c in files[n].chain ==> Owned(rc, files, c);
      FileFrame(v, v', spc, e, files[n]);
    }
  }

  lemma FileFrame(v: Volume, v': Volume, spc: nat, e: seq<byte>, f: File)
    requires Shape(v, spc) && Shape(v', spc) && SameShape(v, v') && |e| == 32
    requires FileOk(v, spc, e, f)
    requires forall c :: c in f.chain ==> SameCluster(v, v', c)
    ensures FileOk(v', spc, e, f)
  {
    ChainFrame(v, v', |v.clusters|, ClusterOf(e), f.chain);
    GatherFrame(v, v', spc, f.chain);
  }

  /** Only unowned clusters are free in the primary table, and owned ones exist on the disk. */
  lemma OwnedClusters(v: Volume, spc: nat, root: nat, rc: seq<nat>, files: Files, hole: int, c: nat)
    requires Inv(v, spc, root, rc, files, hole) && Owned(rc, files, c)
    ensures 2 <= c < |v.clusters| && v.fats[0][c] != 0
  {
    if c in rc {
      InChain(v.fats[0], |v.clusters|, root, rc, c);
    } else {
      var n :| n in files && c in files[n].chain;
      InChain(v.fats[0], |v.clusters|, ClusterOf(RootSlots(v, spc, rc)[files[n].slot]), files[n].chain, c);
    }
  }

  lemma InChain(fat: seq<nat>, limit: nat, first: nat, cs: seq<nat>, c: nat)
    requires limit <= |fat| && Chain(fat, limit, first, cs) && c in cs
    ensures 2 <= c < limit && fat[c] != 0
  {
    var i :| 0 <= i < |cs| && cs[i] == c;
    if i < |cs| - 1 {
      assert fat[cs[i]] == cs[i + 1];
    }
  }

  // Sectors of a chain.

  lemma {:induction false} LocsPrefix(cs: seq<nat>, i: nat, spc: nat)
    requires i <= |cs|
    ensures Locs(cs[..i], spc) <= Locs(cs, spc)
  {
    if i < |cs| {
      LocsPrefix(cs[..|cs| - 1], i, spc);
      assert cs[..|cs| - 1][..i] == cs[..i];
    } else {
      assert cs[..i] == cs;
    }
  }

  lemma {:induction false} LocsLength(cs: seq<nat>, spc: nat)
    ensures |Locs(cs, spc)| == |cs| * spc
  {
    if cs != [] {
      LocsLength(cs[..|cs| - 1], spc);
    }
  }

  /** Where sector `s` of the `i`-th cluster stands among the sectors of the chain. */
  lemma LocAt(cs: seq<nat>, i: nat, s: nat, spc: nat)
    requires i < |cs| && s < spc
    ensures |Locs(cs[..i + 1], spc)| == |Locs(cs[..i], spc)| + spc
    ensures |Locs(cs[..i], spc)| + s < |Locs(cs, spc)|
    ensures Locs(cs, spc)[|Locs(cs[..i], spc)| + s] == Loc(cs[i], s)
  {
    LocsPrefix(cs, i + 1, spc);
    var t := cs[..i + 1];
    assert t[..|t| - 1] == cs[..i];
    assert Locs(t, spc) == Locs(cs[..i], spc) + seq(spc, s requires 0 <= s => Loc(cs[i], s));
  }

  lemma {:induction false} LocsDistinct(cs: seq<nat>, spc: nat)
    requires Distinct(cs)
    ensures forall i, j :: 0 <= i < j < |Locs(cs, spc)| ==> Locs(cs, spc)[i] != Locs(cs, spc)[j]
  {
    if cs != [] {
      var init := cs[..|cs| - 1];
      LocsDistinct(init, spc);
      assert forall c :: c in init ==> c != cs[|cs| - 1];
    }
  }

  // Writing a directory slot.

  /** The volume with slot `k` of the root directory replaced by `e`. */
  ghost function WriteSlot(v: Volume, spc: nat, rc: seq<nat>, k: nat, e: seq<byte>): (v': Volume)
    requires Readable(v, Locs(rc, spc)) && k < 16 * |Locs(rc, spc)| && |e| == 32
  {
    var loc := Locs(rc, spc)[k / 16];
    SetSector(v, loc.cluster, loc.sector, Splice(v.clusters[loc.cluster][loc.sector], 32 * (k % 16), e))
  }

  lemma SlotsUpdate(secs: seq<Sector>, k: nat, e: seq<byte>)
    requires k < 16 * |secs| && |e| == 32
    ensures var sec: Sector := Splice(secs[k / 16], 32 * (k % 16), e);
            Slots(secs[k / 16 := sec]) == Slots(secs)[k := e]
  {
    var sec: Sector := Splice(secs[k / 16], 32 * (k % 16), e);
    var secs' := secs[k / 16 := sec];
    forall j | 0 <= j < 16 * |secs| ensures Slots(secs')[j] == Slots(secs)[k := e][j] {
      SpliceWindow(secs[k / 16], k % 16, e, j % 16);
    }
  }

  lemma SpliceWindow(s: Sector, i: nat, e: seq<byte>, j: nat)
    requires i < 16 && j < 16 && |e| == 32
    ensures Splice(s, 32 * i, e)[32 * j..32 * j + 32] == if j == i then e else s[32 * j..32 * j + 32]
  {
  }

  lemma GatherUpdate(v: Volume, locs: seq<Loc>, j: nat, sec: Sector)
    requires Readable(v, locs) && j < |locs|
    requires forall a, b :: 0 <= a < b < |locs| ==> locs[a] != locs[b]
    ensures var v' := SetSector(v, locs[j].cluster, locs[j].sector, sec);
            Readable(v', locs) && Gather(v', locs) == Gather(v, locs)[j := sec]
  {
  }

  lemma WriteSlotEffect(v: Volume, spc: nat, rc: seq<nat>, k: nat, e: seq<byte>)
    requires Readable(v, Locs(rc, spc)) && k < 16 * |Locs(rc, spc)| && |e| == 32 && Distinct(rc)
    ensures var v' := WriteSlot(v, spc, rc, k, e);
            && v'.fats == v.fats && SameShape(v, v')
            && (forall c :: 0 <= c < |v.clusters| && c !in rc ==> v'.clusters[c] == v.clusters[c])
            && Readable(v', Locs(rc, spc))
            && RootSlots(v', spc, rc) == RootSlots(v, spc, rc)[k := e]
  {
    hide Slots, Gather;
    var locs := Locs(rc, spc);
    LocsDistinct(rc, spc);
    var loc := locs[k / 16];
    var secs := Gather(v, locs);
    assert secs[k / 16] == v.clusters[loc.cluster][loc.sector] by { GatherAt(v, locs, k / 16); }
    GatherUpdate(v, locs, k / 16, Splice(secs[k / 16], 32 * (k % 16), e));
    SlotsUpdate(secs, k, e);
  }

  lemma WriteSlotShape(v: Volume, spc: nat, rc: seq<nat>, k: nat, e: seq<byte>)
    requires Readable(v, Locs(rc, spc)) && k < 16 * |Locs(rc, spc)| && |e| == 32
    ensures var v' := WriteSlot(v, spc, rc, k, e);
            v'.fats == v.fats && SameShape(v, v')
  {
  }

  lemma GatherAt(v: Volume, locs: seq<Loc>, j: nat)
    requires Readable(v, locs) && j < |locs|
    ensures Gather(v, locs)[j] == v.clusters[locs[j].cluster][locs[j].sector]
  {
  }

  // Steps of the invariant.

  /** A file stops counting; its slot becomes the hole. */
  lemma OpenHole(v: Volume, spc: nat, root: nat, rc: seq<nat>, files: Files, n: Name)
    requires Inv(v, spc, root, rc, files, NO_HOLE) && n in files
    ensures Inv(v, spc, root, rc, files - {n}, files[n].slot)
    ensures forall c :: c in files[n].chain ==> !Owned(rc, files - {n}, c)
  {
    hide FileOk, Locs, Slots, Gather, ZeroTail, Chain, Readable;
  }

  /** A slot that names no file may be exempted, and need not be. */
  lemma UnusedHole(v: Volume, spc: nat, root: nat, rc: seq<nat>, files: Files, k: nat)
    requires Shape(v, spc) && Readable(v, Locs(rc, spc)) && k < |RootSlots(v, spc, rc)|
    requires !Live(RootSlots(v, spc, rc)[k])
    ensures Inv(v, spc, root, rc, files, NO_HOLE) <==> Inv(v, spc, root, rc, files, k)
  {
    hide FileOk, Locs, Slots, Gather, ZeroTail, Chain, Readable, Disjoint;
  }

  /** Slot `k` may take a non-zero first byte. */
  ghost predicate Fillable(slots: seq<seq<byte>>, k: nat)
    requires Entries(slots)
  {
    k < |slots| && forall j :: 0 <= j < k ==> slots[j][0] != 0
  }

  lemma DirectoryCommit(slots: seq<seq<byte>>, files: Files, k: nat, e: seq<byte>, f: File)
    requires Entries(slots) && ZeroTail(slots) && Fillable(slots, k) && Indexed(slots, files, k)
    requires |e| == 32 && Live(e) && NameOf(e) !in files && f.slot == k
    ensures Entries(slots[k := e]) && ZeroTail(slots[k := e])
    ensures Indexed(slots[k := e], files[NameOf(e) := f], NO_HOLE)
  {
  }

  /** Writing a directory entry for a finished chain adds exactly that file. */
  lemma Commit(v: Volume, spc: nat, root: nat, rc: seq<nat>, files: Files, k: nat, e: seq<byte>, f: File)
    requires Inv(v, spc, root, rc, files, k)
    requires Fillable(RootSlots(v, spc, rc), k)
    requires |e| == 32 && Live(e) && NameOf(e) !in files && f.slot == k
    requires FileOk(v, spc, e, f)
    requires forall c :: c in f.chain ==> !Owned(rc, files, c)
    ensures Inv(WriteSlot(v, spc, rc, k, e), spc, root, rc, files[NameOf(e) := f], NO_HOLE)
    ensures RootSlots(WriteSlot(v, spc, rc, k, e), spc, rc) == RootSlots(v, spc, rc)[k := e]
  {
    hide Locs, Slots, Gather, Spells, Readable, ZeroTail, Indexed, RootSlots, WriteSlot, Chain;
    var v' := WriteSlot(v, spc, rc, k, e);
    assert Distinct(rc) by { ChainDistinct(v.fats[0], |v.clusters|, root, rc); }
    WriteSlotEffect(v, spc, rc, k, e);
    DirectoryCommit(RootSlots(v, spc, rc), files, k, e, f);
    var n := NameOf(e);
    var files' := files[n := f];
    forall m | m in files ensures files[m].slot < |RootSlots(v, spc, rc)| && files[m].slot != k {
      IndexedSlot(RootSlots(v, spc, rc), files, k, m);
    }
    forall m | m in files'
      ensures FileOk(v', spc, if m == n then e else RootSlots(v, spc, rc)[files'[m].slot], files'[m])
    {
      assert forall c :: c in files'[m].chain ==> c !in rc;
      var e' := if m == n then e else RootSlots(v, spc, rc)[files'[m].slot];
      FileFrame(v, v', spc, e', files'[m]);
    }
    forall a, b | a in files' && b in files' && a != b
      ensures DisjointSeqs(files'[a].chain, files'[b].chain)
    {
      assert forall c :: c in f.chain ==> !Owned(rc, files, c);
    }
  }

  lemma IndexedSlot(slots: seq<seq<byte>>, files: Files, hole: int, n: Name)
    requires Entries(slots) && Indexed(slots, files, hole) && n in files
    ensures files[n].slot < |slots| && files[n].slot != hole
  {
  }

  lemma ChainDistinct(fat: seq<nat>, limit: nat, first: nat, cs: seq<nat>)
    requires limit <= |fat| && Chain(fat, limit, first, cs)
    ensures Distinct(cs)
  {
  }

  lemma DirectoryErase(slots: seq<seq<byte>>, files: Files, n: Name, e: seq<byte>)
    requires Entries(slots) && ZeroTail(slots) && Indexed(slots, files, NO_HOLE) && n in files
    requires |e| == 32 && e[0] == 0xE5
    ensures var k := files[n].slot;
            && Entries(slots[k := e]) && ZeroTail(slots[k := e])
            && Indexed(slots[k := e], files - {n}, NO_HOLE)
  {
  }

  /** Marking a file's slot deleted removes exactly that file; its clusters become unowned. */
  lemma Erase(v: Volume, spc: nat, root: nat, rc: seq<nat>, files: Files, n: Name, e: seq<byte>)
    requires Inv(v, spc, root, rc, files, NO_HOLE) && n in files
    requires |e| == 32 && e[0] == 0xE5
    ensures Readable(v, Locs(rc, spc)) && files[n].slot < 16 * |Locs(rc, spc)|
    ensures Inv(WriteSlot(v, spc, rc, files[n].slot, e), spc, root, rc, files - {n}, NO_HOLE)
    ensures files[n].slot < |RootSlots(v, spc, rc)|
    ensures RootSlots(WriteSlot(v, spc, rc, files[n].slot, e), spc, rc) == RootSlots(v, spc, rc)[files[n].slot := e]
    ensures forall c :: c in files[n].chain ==> !Owned(rc, files - {n}, c)
  {
    hide Locs, Slots, Gather, Spells, Readable, ZeroTail, Indexed, RootSlots, WriteSlot, Chain;
    var k := files[n].slot;
    IndexedSlot(RootSlots(v, spc, rc), files, NO_HOLE, n);
    assert Distinct(rc) by { ChainDistinct(v.fats[0], |v.clusters|, root, rc); }
    WriteSlotEffect(v, spc, rc, k, e);
    var v' := WriteSlot(v, spc, rc, k, e);
    DirectoryErase(RootSlots(v, spc, rc), files, n, e);
    forall m | m in files && m != n
      ensures files[m].slot < |RootSlots(v, spc, rc)| && files[m].slot != k
      ensures FileOk(v', spc, RootSlots(v, spc, rc)[files[m].slot], files[m])
    {
      SlotsDiffer(RootSlots(v, spc, rc), files, m, n);
      assert forall c :: c in files[m].chain ==> c !in rc;
      FileFrame(v, v', spc, RootSlots(v, spc, rc)[files[m].slot], files[m]);
    }
  }

  lemma SlotsDiffer(slots: seq<seq<byte>>, files: Files, m: Name, n: Name)
    requires Entries(slots) && Indexed(slots, files, NO_HOLE) && m in files && n in files && m != n
    ensures files[m].slot < |slots| && files[m].slot != files[n].slot
  {
  }

  // Growing the root directory.

  function ZeroSector(): Sector { seq(512, _ => 0) }

  lemma LocsAppend(cs: seq<nat>, c: nat, spc: nat)
    ensures Locs(cs + [c], spc) == Locs(cs, spc) + seq(spc, s requires 0 <= s => Loc(c, s))
  {
    assert (cs + [c])[..|cs|] == cs;
  }

  /** `v'` is `v` with the zeroed cluster `c` linked behind the last cluster of `rc`. */
  ghost predicate Grown(v: Volume, v': Volume, rc: seq<nat>, c: nat)
    requires v.fats != [] && rc != []
  {
    var last := rc[|rc| - 1];
    && SameShape(v, v')
    && last < |v.fats[0]| && c < |v.clusters| && c < |v.fats[0]|
    && v'.fats[0] == v.fats[0][c := FAT_LAST][last := c]
    && (forall x :: 0 <= x < |v.clusters| && x != c ==> v'.clusters[x] == v.clusters[x])
    && (forall s :: 0 <= s < |v'.clusters[c]| ==> v'.clusters[c][s] == ZeroSector())
  }

  lemma GrownChain(v: Volume, v': Volume, limit: nat, root: nat, rc: seq<nat>, c: nat)
    requires v.fats != [] && limit <= |v.fats[0]| && rc != [] && Chain(v.fats[0], limit, root, rc)
    requires 2 <= c < limit && c !in rc && Grown(v, v', rc, c)
    ensures Chain(v'.fats[0], limit, root, rc + [c])
  {
  }

  /** `slots'` is `slots` with `count` all-zero slots behind it. */
  ghost predicate Extended(slots: seq<seq<byte>>, slots': seq<seq<byte>>, count: nat) {
    && |slots'| == |slots| + count
    && (forall k :: 0 <= k < |slots| ==> slots'[k] == slots[k])
    && (forall k :: |slots| <= k < |slots'| ==> slots'[k] == seq(32, _ => 0))
  }

  /** Slot `k` was written and `count` all-zero slots were added; every other slot is as it was. */
  ghost predicate FiledAt(slots: seq<seq<byte>>, slots': seq<seq<byte>>, k: nat, count: nat) {
    && |slots'| == |slots| + count && k < |slots'|
    && forall j :: 0 <= j < |slots'| && j != k ==> slots'[j] == if j < |slots| then slots[j] else seq(32, _ => 0)
  }

  lemma ExtendedFiled(slots: seq<seq<byte>>, slots': seq<seq<byte>>, k: nat, count: nat, e: seq<byte>)
    requires Extended(slots, slots', count) && k < |slots'|
    ensures FiledAt(slots, slots'[k := e], k, count)
  {
  }

  lemma ExtendedSelf(slots: seq<seq<byte>>)
    ensures Extended(slots, slots, 0)
  {
  }

  lemma GrownSlots(v: Volume, v': Volume, spc: nat, rc: seq<nat>, c: nat)
    requires v.fats != [] && rc != [] && Readable(v, Locs(rc, spc))
    requires c !in rc && Grown(v, v', rc, c) && |v.clusters[c]| == spc
    ensures Readable(v', Locs(rc + [c], spc))
    ensures |RootSlots(v', spc, rc + [c])| == |RootSlots(v, spc, rc)| + 16 * spc
    ensures forall k :: 0 <= k < |RootSlots(v, spc, rc)| ==>
              RootSlots(v', spc, rc + [c])[k] == RootSlots(v, spc, rc)[k]
    ensures forall k :: |RootSlots(v, spc, rc)| <= k < |RootSlots(v', spc, rc + [c])| ==>
              RootSlots(v', spc, rc + [c])[k][0] == 0
    ensures Extended(RootSlots(v, spc, rc), RootSlots(v', spc, rc + [c]), 16 * spc)
  {
    hide Locs;
    LocsAppend(rc, c, spc);
    var secs, secs' := Gather(v, Locs(rc, spc)), Gather(v', Locs(rc + [c], spc));
    assert forall j :: 0 <= j < |secs| ==> secs'[j] == secs[j];
    assert forall j :: |secs| <= j < |secs'| ==> secs'[j] == ZeroSector();
  }

  lemma DirectoryGrow(slots: seq<seq<byte>>, slots': seq<seq<byte>>, files: Files)
    requires Entries(slots) && Entries(slots') && |slots| <= |slots'|
    requires ZeroTail(slots) && Indexed(slots, files, NO_HOLE)
    requires forall k :: 0 <= k < |slots| ==> slots'[k] == slots[k]
    requires forall k :: |slots| <= k < |slots'| ==> slots'[k][0] == 0
    ensures ZeroTail(slots') && Indexed(slots', files, NO_HOLE)
  {
  }

  /** Linking a zeroed, unowned cluster behind the root directory keeps every file. */
  lemma GrowRoot(v: Volume, v': Volume, spc: nat, root: nat, rc: seq<nat>, files: Files, c: nat)
    requires Inv(v, spc, root, rc, files, NO_HOLE)
    requires 2 <= c < |v.clusters| && !Owned(rc, files, c) && Grown(v, v', rc, c)
    ensures Inv(v', spc, root, rc + [c], files, NO_HOLE)
  {
    hide Chain, Locs, Slots, Gather, Spells, Readable, ZeroTail, Indexed, RootSlots;
    GrownChain(v, v', |v.clusters|, root, rc, c);
    GrownSlots(v, v', spc, rc, c);
    var slots, slots' := RootSlots(v, spc, rc), RootSlots(v', spc, rc + [c]);
    DirectoryGrow(slots, slots', files);
    forall n | n in files
      ensures files[n].slot < |slots| && FileOk(v', spc, slots[files[n].slot], files[n])
      ensures DisjointSeqs(files[n].chain, rc + [c])
    {
      IndexedSlot(slots, files, NO_HOLE, n);
      assert DisjointSeqs(files[n].chain, rc);
      assert forall x :: x in files[n].chain ==> x !in rc && x != c;
      FileFrame(v, v', spc, slots[files[n].slot], files[n]);
    }
  }

  // Bytes of a chain.

  /** The 512 bytes of `data` from `at` on, padded with zeros. */
  function Chunk(data: seq<byte>, at: nat): (s: Sector)
    requires at <= |data|
  {
    if at + 512 <= |data| then data[at..at + 512]
    else data[at..] + seq(512 - (|data| - at), _ => 0)
  }

  /** Every sector that some byte of `data` falls into holds its chunk. */
  ghost predicate Chunked(secs: seq<Sector>, data: seq<byte>) {
    forall j :: 0 <= j < |secs| && 512 * j < |data| ==> secs[j] == Chunk(data, 512 * j)
  }

  lemma {:induction false} FlattenAt(secs: seq<Sector>, j: nat)
    requires j < |secs|
    ensures Flatten(secs)[512 * j..512 * j + 512] == secs[j]
  {
    if j < |secs| - 1 {
      FlattenAt(secs[..|secs| - 1], j);
    }
  }

  lemma ChunkAt(data: seq<byte>, at: nat, i: nat)
    requires at <= i < at + 512 && i < |data|
    ensures Chunk(data, at)[i - at] == data[i]
  {
  }

  lemma FlattenByte(secs: seq<Sector>, i: nat)
    requires i < 512 * |secs|
    ensures Flatten(secs)[i] == secs[i / 512][i % 512]
  {
    hide Flatten;
    FlattenAt(secs, i / 512);
    assert Flatten(secs)[i] == Flatten(secs)[512 * (i / 512)..512 * (i / 512) + 512][i % 512];
  }

  lemma ChunkedSpells(secs: seq<Sector>, data: seq<byte>)
    requires Chunked(secs, data) && |data| <= 512 * |secs|
    ensures data <= Flatten(secs)
  {
    hide Flatten, Chunk;
    forall i | 0 <= i < |data| ensures data[i] == Flatten(secs)[i] {
      FlattenByte(secs, i);
      ChunkAt(data, 512 * (i / 512), i);
    }
  }

  // Looking names up.

  predicate Match(e: seq<byte>, n: Name)
    requires |e| == 32
  {
    Live(e) && NameOf(e) == n
  }

  /** The first `count` slots neither end the directory nor name `n`. */
  ghost predicate NotIn(slots: seq<seq<byte>>, count: nat, n: Name)
    requires Entries(slots)
  {
    count <= |slots| && forall k :: 0 <= k < count ==> slots[k][0] != 0 && !Match(slots[k], n)
  }

  lemma NothingPassed(slots: seq<seq<byte>>, n: Name)
    requires Entries(slots)
    ensures NotIn(slots, 0, n)
  {
  }

  lemma Hit(slots: seq<seq<byte>>, files: Files, k: nat, n: Name)
    requires Entries(slots) && Indexed(slots, files, NO_HOLE) && k < |slots| && Match(slots[k], n)
    ensures n in files && files[n].slot == k
  {
  }

  /** A name not met before the end mark, or before the end of the chain, names no file. */
  lemma Miss(slots: seq<seq<byte>>, files: Files, count: nat, n: Name)
    requires Entries(slots) && ZeroTail(slots) && Indexed(slots, files, NO_HOLE) && NotIn(slots, count, n)
    requires count == |slots| || slots[count][0] == 0
    ensures n !in files
  {
    if n in files {
      assert Match(slots[files[n].slot], n);
    }
  }

  lemma InvShape(v: Volume, spc: nat, root: nat, rc: seq<nat>, files: Files, hole: int)
    requires Inv(v, spc, root, rc, files, hole)
    ensures Shape(v, spc)
  {
  }

  lemma InvDirectory(v: Volume, spc: nat, root: nat, rc: seq<nat>, files: Files, hole: int)
    requires Inv(v, spc, root, rc, files, hole)
    ensures Readable(v, Locs(rc, spc))
    ensures ZeroTail(RootSlots(v, spc, rc)) && Indexed(RootSlots(v, spc, rc), files, hole)
  {
  }

  lemma SlotAt(v: Volume, spc: nat, rc: seq<nat>, k: nat)
    requires Readable(v, Locs(rc, spc)) && k < 16 * |Locs(rc, spc)|
    ensures var loc := Locs(rc, spc)[k / 16];
            RootSlots(v, spc, rc)[k] == v.clusters[loc.cluster][loc.sector][32 * (k % 16)..32 * (k % 16) + 32]
  {
    hide Locs;
  }

  /** The first `count` slots all hold entries that were not deleted. */
  ghost predicate AllUsed(slots: seq<seq<byte>>, count: nat)
    requires Entries(slots)
  {
    count <= |slots| && forall k :: 0 <= k < count ==> slots[k][0] != 0x00 && slots[k][0] != 0xE5
  }

  /** No slot of the root directory can take a new entry. */
  ghost predicate Full(slots: seq<seq<byte>>)
    requires Entries(slots)
  {
    AllUsed(slots, |slots|)
  }

  lemma NothingUsed(slots: seq<seq<byte>>)
    requires Entries(slots)
    ensures AllUsed(slots, 0)
  {
  }

  /** Slot `k` is the first one that is not in use, or would be if there was one more. */
  ghost predicate LowestUnused(slots: seq<seq<byte>>, k: nat)
    requires Entries(slots)
  {
    AllUsed(slots, k) && (k < |slots| ==> slots[k][0] == 0x00 || slots[k][0] == 0xE5)
  }

  /** The first slot that is not used is where an entry may go. */
  lemma FirstUnused(slots: seq<seq<byte>>, k: nat)
    requires Entries(slots) && AllUsed(slots, k) && k < |slots|
    requires slots[k][0] == 0x00 || slots[k][0] == 0xE5
    ensures Fillable(slots, k) && !Live(slots[k]) && !Full(slots)
  {
  }

  /** `v'` differs from `v` in the sectors of cluster `c` at most. */
  ghost predicate OnlyCluster(v: Volume, v': Volume, c: nat) {
    && v'.fats == v.fats && SameShape(v, v')
    && forall x :: 0 <= x < |v.clusters| && x != c ==> v'.clusters[x] == v.clusters[x]
  }

  lemma SameFats(v: Volume, v': Volume, c: nat)
    requires OnlyCluster(v, v', c)
    ensures v'.fats == v.fats
  {
  }

  lemma OnlyClusterSet(v: Volume, v': Volume, c: nat, s: nat, sec: Sector)
    requires OnlyCluster(v, v', c) && c < |v'.clusters| && s < |v'.clusters[c]|
    ensures OnlyCluster(v, SetSector(v', c, s, sec), c)
  {
  }

  /** The first `count` sectors of cluster `c` hold the chunks of `data` from `at` on. */
  ghost predicate Holding(v: Volume, c: nat, count: nat, data: seq<byte>, at: nat) {
    && c < |v.clusters| && count <= |v.clusters[c]|
    && forall s :: 0 <= s < count && at + 512 * s < |data| ==> v.clusters[c][s] == Chunk(data, at + 512 * s)
  }

  lemma HoldingNothing(v: Volume, c: nat, data: seq<byte>, at: nat)
    ensures c < |v.clusters| ==> Holding(v, c, 0, data, at)
  {
  }

  lemma HoldingRest(v: Volume, c: nat, count: nat, data: seq<byte>, at: nat)
    requires Holding(v, c, count, data, at) && (at + 512 * count >= |data| || count == |v.clusters[c]|)
    ensures Holding(v, c, |v.clusters[c]|, data, at)
  {
  }

  lemma HoldingNext(v: Volume, c: nat, count: nat, data: seq<byte>, at: nat)
    requires Holding(v, c, count, data, at) && count < |v.clusters[c]| && at + 512 * count <= |data|
    ensures Holding(SetSector(v, c, count, Chunk(data, at + 512 * count)), c, count + 1, data, at)
  {
  }

  /** The first `count` sectors of cluster `c` are zero. */
  ghost predicate Zeroed(v: Volume, c: nat, count: nat) {
    && c < |v.clusters| && count <= |v.clusters[c]|
    && forall s :: 0 <= s < count ==> v.clusters[c][s] == ZeroSector()
  }

  lemma ZeroedNothing(v: Volume, c: nat)
    ensures c < |v.clusters| ==> Zeroed(v, c, 0)
  {
  }

  lemma ZeroedNext(v: Volume, c: nat, count: nat)
    requires Zeroed(v, c, count) && count < |v.clusters[c]|
    ensures Zeroed(SetSector(v, c, count, ZeroSector()), c, count + 1)
  {
  }

  // Directory entries.

  /** The 32 bytes `write_dir_entry` stores: name, archive attribute, first cluster, size. */
  function MakeEntry(n: Name, cluster: nat, size: nat): (e: seq<byte>)
    requires |n| == 11 && cluster < TWO32 && size < TWO32
    ensures |e| == 32
  {
    n + [0x20] + [0, 0, 0, 0, 0, 0, 0, 0] + Put16(cluster / TWO16) + [0, 0, 0, 0] + Put16(cluster % TWO16) + Put32(size)
  }

  /** A directory entry of a file, byte by byte. */
  predicate EntryBytes(e: seq<byte>, n: Name, cluster: nat, size: nat) {
    && |e| == 32 && e[..11] == n && e[11] == 0x20
    && e[12..20] == [0, 0, 0, 0, 0, 0, 0, 0] && e[22..26] == [0, 0, 0, 0]
    && cluster == e[26] as int + 0x100 * e[27] as int + 0x1_0000 * e[20] as int + 0x100_0000 * e[21] as int
    && size == e[28] as int + 0x100 * e[29] as int + 0x1_0000 * e[30] as int + 0x100_0000 * e[31] as int
  }

  lemma EntryAsBytes(n: Name, cluster: nat, size: nat)
    requires |n| == 11 && cluster < TWO32 && size < TWO32
    ensures EntryBytes(MakeEntry(n, cluster, size), n, cluster, size)
  {
    var e := MakeEntry(n, cluster, size);
    var high, low, bytes := Put16(cluster / TWO16), Put16(cluster % TWO16), Put32(size);
    hide Put16, Put32;
    assert e[20] == high[0] && e[21] == high[1] && e[26] == low[0] && e[27] == low[1];
    assert e[28] == bytes[0] && e[29] == bytes[1] && e[30] == bytes[2] && e[31] == bytes[3];
  }

  lemma EntryFields(n: Name, cluster: nat, size: nat)
    requires |n| == 11 && cluster < TWO32 && size < TWO32
    requires n[0] != 0x00 && n[0] != 0xE5
    ensures var e := MakeEntry(n, cluster, size);
            Live(e) && NameOf(e) == n && ClusterOf(e) == cluster && SizeOf(e) == size
    ensures EntryBytes(MakeEntry(n, cluster, size), n, cluster, size)
  {
    hide Le32, Put32;
    var e := MakeEntry(n, cluster, size);
    EntryAsBytes(n, cluster, size);
    assert e[20] == Put16(cluster / TWO16)[0] && e[21] == Put16(cluster / TWO16)[1];
    assert e[26] == Put16(cluster % TWO16)[0] && e[27] == Put16(cluster % TWO16)[1];
    assert e[28..32] == Put32(size);
    Le32Slice(e, 28);
  }
}
