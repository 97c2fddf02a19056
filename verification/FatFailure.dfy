/** What is left of a volume when a write to it failed half-way. */
module FatFailure {
  import opened Bytes
  import opened FatLayout
  import opened FatVolume
  import opened FatTable

  /** Tables and sectors changed at free clusters only, and in the table behind cluster `last`. */
  ghost predicate Strayed(v: Volume, v': Volume, last: nat) {
    && v.fats != [] && SameShape(v, v')
    && (forall i, c: nat :: 0 <= i < |v.fats| && c < |v.fats[i]| && InUse(v.fats[0], c) && c != last ==>
          v'.fats[i][c] == v.fats[i][c])
    && (forall c: nat :: c < |v.clusters| && InUse(v.fats[0], c) ==> v'.clusters[c] == v.clusters[c])
  }

  lemma StrayedSelf(v: Volume, last: nat)
    requires v.fats != []
    ensures Strayed(v, v, last)
  {
  }

  /** A failed allocation touched free entries only. */
  lemma StrayedFree(v: Volume, v': Volume, touched: set<nat>, last: nat)
    requires v.fats != [] && TablesDifferOnlyAt(v, v', touched) && touched <= FreeBelow(v.fats[0], |v.fats[0]|)
    ensures Strayed(v, v', last)
  {
    assert forall c: nat :: InUse(v.fats[0], c) ==> c !in touched;
  }

  /** Taking cluster `c`, linking it behind `last` in some copies, writing some of its sectors. */
  lemma StrayedLink(v: Volume, copies: nat, c: nat, last: nat, v': Volume)
    requires v.fats != [] && copies <= |v.fats| && c in FreeBelow(v.fats[0], |v.fats[0]|)
    requires forall i :: 0 <= i < |v.fats| ==> |v.fats[i]| == |v.fats[0]| && last < |v.fats[i]|
    requires OnlyCluster(SetFirst(SetFirst(v, |v.fats|, c, FAT_LAST), copies, last, c), v', c)
    ensures Strayed(v, v', last)
  {
    var v1 := SetFirst(v, |v.fats|, c, FAT_LAST);
    assert forall i :: 0 <= i < |v.fats| ==> |v1.fats[i]| == |v.fats[i]|;
  }

  /** Touching free clusters afterwards goes no further. */
  lemma StrayedThenFree(u: Volume, v: Volume, w: Volume, last: nat)
    requires Strayed(u, v, last) && FreeTouched(v, w) && last < |u.fats[0]| && InUse(v.fats[0], last)
    ensures Strayed(u, w, last)
  {
    assert forall c: nat :: InUse(u.fats[0], c) ==> InUse(v.fats[0], c);
  }

  /** The directory of `u` and its files other than `n` are as they were: slots, chains and bytes. */
  ghost predicate Survive(u: Volume, v: Volume, spc: nat, rc: seq<nat>, files: Files, n: Name) {
    && Shape(v, spc) && RootSlots(v, spc, rc) == RootSlots(u, spc, rc)
    && forall m :: m in files && m != n ==>
         files[m].slot < |RootSlots(u, spc, rc)| && FileOk(v, spc, RootSlots(u, spc, rc)[files[m].slot], files[m])
  }

  /** A creation that went astray at the end of the root directory harms no file. */
  lemma StrayedSurvive(u: Volume, v: Volume, spc: nat, root: nat, rc: seq<nat>, files: Files, n: Name, last: nat)
    requires Inv(u, spc, root, rc, files, NO_HOLE) && Strayed(u, v, last) && last in rc
    ensures Survive(u, v, spc, rc, files, n)
  {
    hide Inv, FileOk, RootSlots, Strayed;
    InvShape(u, spc, root, rc, files, NO_HOLE);
    StrayedShape(u, v, spc, last);
    StrayedSlots(u, v, spc, root, rc, files, last);
    forall m | m in files && m != n
      ensures files[m].slot < |RootSlots(u, spc, rc)| && FileOk(v, spc, RootSlots(u, spc, rc)[files[m].slot], files[m])
    {
      StrayedFile(u, v, spc, root, rc, files, m, last);
    }
  }

  lemma StrayedSlots(u: Volume, v: Volume, spc: nat, root: nat, rc: seq<nat>, files: Files, last: nat)
    requires Inv(u, spc, root, rc, files, NO_HOLE) && Strayed(u, v, last)
    ensures RootSlots(v, spc, rc) == RootSlots(u, spc, rc)
  {
    InvShape(u, spc, root, rc, files, NO_HOLE);
    hide Inv, RootSlots, Owned;
    forall c | c in rc && c < |u.clusters| ensures v.clusters[c] == u.clusters[c] {
      InRootOwned(rc, files, c);
      OwnedClusters(u, spc, root, rc, files, NO_HOLE, c);
      assert InUse(u.fats[0], c);
    }
    SlotsFrame(u, v, spc, rc, files, root, NO_HOLE);
  }

  lemma StrayedFile(u: Volume, v: Volume, spc: nat, root: nat, rc: seq<nat>, files: Files, m: Name, last: nat)
    requires Inv(u, spc, root, rc, files, NO_HOLE) && Strayed(u, v, last) && last in rc && m in files && Shape(v, spc)
    ensures files[m].slot < |RootSlots(u, spc, rc)| && FileOk(v, spc, RootSlots(u, spc, rc)[files[m].slot], files[m])
  {
    InvShape(u, spc, root, rc, files, NO_HOLE);
    hide Inv, FileOk, RootSlots, Shape;
    FileChain(u, spc, root, rc, files, m);
    forall c | c in files[m].chain ensures SameCluster(u, v, c) {
      ChainApart(u, spc, root, rc, files, m, c, last);
    }
    FileFrame(u, v, spc, RootSlots(u, spc, rc)[files[m].slot], files[m]);
  }

  lemma StrayedShape(u: Volume, v: Volume, spc: nat, last: nat)
    requires Shape(u, spc) && Strayed(u, v, last)
    ensures Shape(v, spc) && SameShape(u, v)
  {
  }

  /** A cluster of a file is in use and no cluster of the root directory. */
  lemma ChainApart(u: Volume, spc: nat, root: nat, rc: seq<nat>, files: Files, m: Name, c: nat, last: nat)
    requires Inv(u, spc, root, rc, files, NO_HOLE) && m in files && c in files[m].chain && last in rc
    ensures c != last && u.fats != [] && InUse(u.fats[0], c)
  {
    assert c != last by {
      assert DisjointSeqs(files[m].chain, rc);
    }
    assert Owned(rc, files, c);
    hide Inv, Owned;
    OwnedClusters(u, spc, root, rc, files, NO_HOLE, c);
    InvShape(u, spc, root, rc, files, NO_HOLE);
  }

  /** Where the directory minus one file is consistent, the other files survive. */
  lemma HoleSurvive(u: Volume, v: Volume, spc: nat, root: nat, rc: seq<nat>, files: Files, n: Name, hole: int)
    requires Inv(v, spc, root, rc, files - {n}, hole) && RootSlots(v, spc, rc) == RootSlots(u, spc, rc)
    ensures Survive(u, v, spc, rc, files, n)
  {
    hide RootSlots, FileOk;
    forall m | m in files && m != n
      ensures files[m].slot < |RootSlots(u, spc, rc)| && FileOk(v, spc, RootSlots(u, spc, rc)[files[m].slot], files[m])
    {
      assert m in files - {n};
    }
  }

  lemma OnlyClusterSelf(v: Volume, c: nat)
    ensures OnlyCluster(v, v, c)
  {
  }

  lemma LinkSevers(v: Volume, v': Volume, limit: nat, c: nat, last: nat)
    requires v.fats != [] && c in FreeBelow(v.fats[0], |v.fats[0]|) && limit <= c && |v'.clusters| == |v.clusters|
    requires forall i :: 0 <= i < |v.fats| ==> |v.fats[i]| == |v.fats[0]| && last < |v.fats[i]|
    requires v'.fats == TakeAndLink(v, c, last).fats
    ensures Severed(v, v', limit, last)
  {
    TakeAndLinkTables(v, c, last);
  }

  // A root directory that was linked to a cluster past the end of the disk.

  /** Behind `last` the primary table links a cluster the disk does not have. */
  ghost predicate Severed(v: Volume, v': Volume, limit: nat, last: nat) {
    && v.fats != [] && v'.fats != [] && |v'.clusters| == |v.clusters|
    && exists c: nat :: limit <= c < |v.fats[0]| && v.fats[0][c] == 0 && last < |v.fats[0]|
                        && v'.fats[0] == v.fats[0][c := FAT_LAST][last := c]
  }

  /** Along a broken chain every other chain is a prefix. */
  lemma {:induction false} BrokenPrefix(fat: seq<nat>, limit: nat, first: nat, cs: seq<nat>, last: nat, c: nat,
                                        ds: seq<nat>, i: nat)
    requires limit <= c < |fat| <= FAT_EOC && Chain(fat, limit, first, cs) && cs != [] && last == cs[|cs| - 1]
    requires Chain(fat[c := FAT_LAST][last := c], limit, first, ds) && i < |ds| && i < |cs|
    ensures ds[i] == cs[i]
    decreases i
  {
    if i > 0 {
      BrokenPrefix(fat, limit, first, cs, last, c, ds, i - 1);
      assert cs[i - 1] != last && cs[i - 1] != c;
    }
  }

  lemma BrokenLink(fat: seq<nat>, limit: nat, first: nat, cs: seq<nat>, c: nat, i: nat)
    requires limit <= c < |fat| <= FAT_EOC && Chain(fat, limit, first, cs) && i < |cs|
    ensures 2 <= cs[i] < limit
    ensures fat[c := FAT_LAST][cs[|cs| - 1] := c][cs[i]] == if i == |cs| - 1 then c else cs[i + 1]
    ensures i < |cs| - 1 ==> cs[i + 1] < limit
  {
    assert i < |cs| - 1 ==> cs[i] != cs[|cs| - 1];
  }

  /** No chain is left that starts where the root directory starts. */
  lemma NoRootLeft(fat: seq<nat>, limit: nat, first: nat, cs: seq<nat>, last: nat, c: nat, ds: seq<nat>)
    requires 2 <= limit <= c < |fat| <= FAT_EOC && Chain(fat, limit, first, cs) && cs != [] && last == cs[|cs| - 1]
    ensures !(ds != [] && Chain(fat[c := FAT_LAST][last := c], limit, first, ds))
  {
    var fat' := fat[c := FAT_LAST][last := c];
    if ds != [] && Chain(fat', limit, first, ds) {
      var i := if |ds| <= |cs| then |ds| - 1 else |cs| - 1;
      ChainAt(fat', limit, first, ds, i);
      BrokenLink(fat, limit, first, cs, c, i);
      BrokenPrefix(fat, limit, first, cs, last, c, ds, i);
    }
  }

  /** The smallest table: one cluster on the disk, the root's, and entries that go on behind it. */
  lemma SeveredExample(ds: seq<nat>)
    ensures var fat := seq(128, i => if i == 2 then FAT_LAST else 0);
            && Chain(fat, 3, 2, [2])
            && !(ds != [] && Chain(fat[3 := FAT_LAST][2 := 3], 3, 2, ds))
  {
    var fat := seq(128, i => if i == 2 then FAT_LAST else 0);
    NoRootLeft(fat, 3, 2, [2], 2, 3, ds);
  }

  /** After that no directory and no files are consistent with the volume. */
  lemma SeveredForGood(v: Volume, v': Volume, spc: nat, root: nat, rc: seq<nat>, files: Files, rc': seq<nat>,
                       files': Files)
    requires Inv(v, spc, root, rc, files, NO_HOLE) && Severed(v, v', |v.clusters|, rc[|rc| - 1])
    ensures !Inv(v', spc, root, rc', files', NO_HOLE)
  {
    var last := rc[|rc| - 1];
    var c: nat :| |v.clusters| <= c < |v.fats[0]| && v.fats[0][c] == 0
        && v'.fats[0] == v.fats[0][c := FAT_LAST][last := c];
    NoRootLeft(v.fats[0], |v.clusters|, root, rc, last, c, rc');
    hide Directory, Disjoint;
  }

  /** How growing the root directory can fail with reliable writes: nothing was free, or only what the disk lacks. */
  ghost predicate GrowthEnded(v: Volume, v': Volume, limit: nat, last: nat) {
    v.fats != [] && if FreeBelow(v.fats[0], |v.fats[0]|) == {} then v' == v else Severed(v, v', limit, last)
  }

  /** A table has at most one chain from a cluster. */
  lemma {:induction false} ChainUnique(fat: seq<nat>, limit: nat, first: nat, cs: seq<nat>, ds: seq<nat>, i: nat)
    requires limit <= |fat| <= FAT_EOC && 2 <= limit && Chain(fat, limit, first, cs) && Chain(fat, limit, first, ds)
    ensures i < |cs| ==> i < |ds| && ds[i] == cs[i]
  {
    if 0 < i < |cs| {
      ChainUnique(fat, limit, first, cs, ds, i - 1);
      ChainAt(fat, limit, first, cs, i - 1);
      ChainAt(fat, limit, first, ds, i - 1);
    }
  }

  lemma RootUnique(v: Volume, spc: nat, root: nat, rc: seq<nat>, files: Files, hole: int, rc': seq<nat>, files': Files)
    requires Inv(v, spc, root, rc, files, hole) && Inv(v, spc, root, rc', files', NO_HOLE)
    ensures rc' == rc
  {
    hide Directory, Disjoint, Chain;
    var fat, limit := v.fats[0], |v.clusters|;
    ChainUnique(fat, limit, root, rc, rc', |rc| - 1);
    ChainUnique(fat, limit, root, rc', rc, |rc'| - 1);
    forall i: nat | i < |rc| ensures i < |rc'| && rc'[i] == rc[i] {
      ChainUnique(fat, limit, root, rc, rc', i);
    }
  }

  /** Every copy of the table keeps every entry outside `s`, and every cluster outside `rc` its sectors. */
  ghost predicate KeptElsewhere(v: Volume, v': Volume, s: set<nat>, rc: seq<nat>) {
    && SameShape(v, v')
    && (forall i, c :: 0 <= i < |v.fats| && 0 <= c < |v.fats[i]| && c !in s ==> v'.fats[i][c] == v.fats[i][c])
    && (forall c :: 0 <= c < |v.clusters| && c !in rc ==> v'.clusters[c] == v.clusters[c])
  }

  /** A delete that marked its slot and freed some of its chain. */
  lemma DeleteKeeps(u: Volume, marked: Volume, v: Volume, s: set<nat>, rc: seq<nat>)
    requires KeptElsewhere(u, marked, {}, rc) && marked.fats == u.fats && TablesDifferOnlyAt(marked, v, s)
    ensures KeptElsewhere(u, v, s, rc)
  {
  }

  lemma SlotWriteKeeps(v: Volume, spc: nat, rc: seq<nat>, k: nat, e: seq<byte>)
    requires Readable(v, Locs(rc, spc)) && k < 16 * |Locs(rc, spc)| && |e| == 32
    ensures KeptElsewhere(v, WriteSlot(v, spc, rc, k, e), {}, rc)
  {
    hide Locs;
  }
}
