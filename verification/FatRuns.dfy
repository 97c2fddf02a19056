/** Whole runs of the FAT32 driver: sequences of operations against the abstract map they implement. */
module FatRuns {
  import opened Bytes
  import opened FatLayout
  import opened FatVolume
  import opened FatTable
  import opened ShortNames
  import opened Fat32

  datatype Op = Write(name: seq<byte>, data: seq<byte>) | Delete(name: seq<byte>)

  predicate WellFormed(op: Op) {
    op.Write? ==> AsciiName(op.name) && |op.data| < 0x8000_0000
  }

  /** What an operation that succeeds does to the map from names to bytes. */
  function Apply(m: map<Name, seq<byte>>, op: Op): map<Name, seq<byte>> {
    match op
    case Write(name, data) => m[ShortName(name) := data]
    case Delete(name) => m - {ShortName(name)}
  }

  function ApplyAll(m: map<Name, seq<byte>>, ops: seq<Op>): map<Name, seq<byte>> {
    if ops == [] then m else Apply(ApplyAll(m, ops[..|ops| - 1]), ops[|ops| - 1])
  }

  /**
   * Every run of successful operations: the invariant holds at the end and the disk holds exactly what
   * the abstract map says. Deleting reports success even when releasing the clusters failed half-way,
   * so only reliable writes keep the tables mirrored.
   */
  method Run(d: Driver, ops: seq<Op>) returns (done: nat)
    requires d.mounted && d.Valid()
    requires forall i :: 0 <= i < |ops| ==> WellFormed(ops[i])
    modifies d`disk, d`vol, d`rootChain, d`files, d.workBuf, d.sectorBuf
    ensures done <= |ops|
    ensures done == |ops| ==>
              && d.Valid() && d.Contents() == ApplyAll(old(d.Contents()), ops)
              && (d.reliable && Mirrored(old(d.vol)) ==> Mirrored(d.vol))
  {
    hide Driver.Valid, Mirrored, Driver.DirSlots, Full;
    done := 0;
    assert ops[..0] == [];
    while done < |ops|
      invariant done <= |ops| && d.Valid()
      invariant d.reliable && Mirrored(old(d.vol)) ==> Mirrored(d.vol)
      invariant d.Contents() == ApplyAll(old(d.Contents()), ops[..done])
    {
      var op := ops[done];
      assert ops[..done + 1][..done] == ops[..done];
      var ok := Step(d, op);
      if !ok {
        return;
      }
      done := done + 1;
    }
    assert ops[..done] == ops;
  }

  /** One operation of a run. */
  method Step(d: Driver, op: Op) returns (ok: bool)
    requires d.mounted && d.Valid() && WellFormed(op)
    modifies d`disk, d`vol, d`rootChain, d`files, d.workBuf, d.sectorBuf
    ensures ok ==> d.Valid() && d.Contents() == Apply(old(d.Contents()), op)
    ensures ok && d.reliable && Mirrored(old(d.vol)) ==> Mirrored(d.vol)
  {
    hide Driver.Valid, Mirrored, Driver.DirSlots, Full, FreeMoved;
    match op
    case Write(name, data) =>
      var code := d.WriteFile(name, data);
      ok := code >= 0;
    case Delete(name) =>
      var code := d.DeleteFile(name);
      ok := code == 0;
      ContentsRemoved(old(d.files), ShortName(name));
  }

  /** Creating a file and reading it back gives its bytes; deleting it gives its clusters back. */
  method CreateReadDelete(d: Driver, name: seq<byte>, data: seq<byte>,
                          buffer: array<byte>) returns (code: int, before: nat, after: nat, ghost grown: set<nat>)
    requires d.mounted && d.Valid() && d.reliable && AsciiName(name) && |data| < 0x8000_0000
    requires ShortName(name) !in d.files
    requires buffer != d.sectorBuf && buffer != d.workBuf && |data| <= buffer.Length
    modifies d`disk, d`vol, d`rootChain, d`files, d.workBuf, d.sectorBuf, buffer
    ensures code >= 0 ==> d.Valid() && d.files == old(d.files) && buffer[..|data|] == data
    ensures code >= 0 ==> before == after + |grown| * d.g.sectorsPerCluster * 512
    ensures code >= 0 ==> |grown| == if old(d.MustGrow(ShortName(name))) then 1 else 0
  {
    hide Driver.Valid, Driver.Ready, Mirrored, Driver.DirSlots, Full, FreeBelow, ShortName, ClustersFor;
    hide Driver.Recoverable, FreeMoved;
    ValidReady(d);
    before := d.FreeSpace();
    ghost var n := ShortName(name);
    code, grown := d.WriteMounted(name, data);
    if code >= 0 {
      ghost var cs, written := d.files[n].chain, d.vol;
      ValidReady(d);
      var size := d.ReadFile(name, buffer, |data|);
      var deleted := d.DeleteFile(name);
      assert d.files == old(d.files) by { FilesBack(old(d.files), d.files, n); }
      ValidReady(d);
      after := d.FreeSpace();
      FreeBack(old(d.vol), written, d.vol, d.g.clusterLimit, d.g.sectorsPerCluster, grown, SetOf(cs));
    } else {
      after := before;
    }
  }

  lemma ValidReady(d: Driver)
    requires d.Valid()
    ensures d.Ready() && |d.vol.fats| >= 1 && |d.vol.fats[0]| == d.g.EntryCount() >= d.g.clusterLimit
  {
  }

  lemma FilesBack(before: Files, after: Files, n: Name)
    requires n !in before && after == before - {n}
    ensures after == before
  {
  }

  lemma FreeBack(u: Volume, v: Volume, w: Volume, limit: nat, spc: nat, grown: set<nat>, cs: set<nat>)
    requires FreeMoved(u, v, limit, {}, grown + cs) && FreeMoved(v, w, limit, cs, {})
    requires limit <= |u.fats[0]| == |v.fats[0]|
    requires grown <= FreeBelow(u.fats[0], limit) && cs <= FreeBelow(u.fats[0], limit) + {} - grown
    ensures |FreeBelow(u.fats[0], |u.fats[0]|)| * spc * 512 ==
            |FreeBelow(w.fats[0], |u.fats[0]|)| * spc * 512 + |grown| * spc * 512
  {
    var count := |u.fats[0]|;
    var f, h := FreeBelow(u.fats[0], count), FreeBelow(w.fats[0], count);
    assert FreeBelow(u.fats[0], limit) <= f;
    assert h == f + {} - (grown + cs) + cs - {};
    TakeAndGiveBack(f, h, grown, cs);
    InBytes(|f|, |h|, |grown|, spc);
  }

  lemma TakeAndGiveBack(f: set<nat>, h: set<nat>, grown: set<nat>, cs: set<nat>)
    requires grown <= f && cs <= f - grown && h == f - (grown + cs) + cs
    ensures |f| == |h| + |grown|
  {
    assert h == f - grown;
    assert f == h + grown;
  }

  lemma InBytes(a: nat, b: nat, c: nat, spc: nat)
    requires a == b + c
    ensures a * spc * 512 == b * spc * 512 + c * spc * 512
  {
    assert a * spc == b * spc + c * spc;
  }

  /**
   * What the invariant says of one live slot: the chain it starts is acyclic, in range, disjoint from the root
   * directory's, and long enough for the size recorded.
   */
  lemma SlotSound(v: Volume, spc: nat, root: nat, rc: seq<nat>, files: Files, i: nat) returns (cs: seq<nat>)
    requires Inv(v, spc, root, rc, files, NO_HOLE) && i < |RootSlots(v, spc, rc)| && Live(RootSlots(v, spc, rc)[i])
    ensures var e := RootSlots(v, spc, rc)[i];
            && NameOf(e) in files && files[NameOf(e)].slot == i && cs == files[NameOf(e)].chain
            && Chain(v.fats[0], |v.clusters|, ClusterOf(e), cs) && DisjointSeqs(cs, rc)
            && SizeOf(e) == |files[NameOf(e)].data| <= 512 * (|cs| * spc)
  {
    hide Chain, ClusterOf, SizeOf, NameOf, Live, Locs, Gather, Slots;
    var e := RootSlots(v, spc, rc)[i];
    cs := files[NameOf(e)].chain;
    LocsLength(cs, spc);
    assert FileOk(v, spc, e, files[NameOf(e)]);
  }

  /** What it says of two: they have different names, and the chains they start are disjoint. */
  lemma SlotsSound(v: Volume, spc: nat, root: nat, rc: seq<nat>, files: Files, i: nat,
                   j: nat) returns (a: seq<nat>, b: seq<nat>)
    requires Inv(v, spc, root, rc, files, NO_HOLE) && i < j < |RootSlots(v, spc, rc)|
    requires Live(RootSlots(v, spc, rc)[i]) && Live(RootSlots(v, spc, rc)[j])
    ensures var e, f := RootSlots(v, spc, rc)[i], RootSlots(v, spc, rc)[j];
            && NameOf(e) != NameOf(f) && DisjointSeqs(a, b)
            && Chain(v.fats[0], |v.clusters|, ClusterOf(e), a) && Chain(v.fats[0], |v.clusters|, ClusterOf(f), b)
  {
    hide Chain, ClusterOf, SizeOf, NameOf, Live, Locs, Gather, Slots, RootSlots;
    a := SlotSound(v, spc, root, rc, files, i);
    b := SlotSound(v, spc, root, rc, files, j);
  }
}
