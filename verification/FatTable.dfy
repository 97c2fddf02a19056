/** Walks over the file allocation table: what a walk reaches, what freeing it clears, what stays free. */
module FatTable {
  import opened Bytes
  import opened FatLayout
  import opened FatVolume

  /** The volume after the first `copies` tables had entry `c` set. */
  ghost function SetFirst(v: Volume, copies: nat, c: nat, value: nat): (v': Volume)
    requires copies <= |v.fats| && forall i :: 0 <= i < |v.fats| ==> c < |v.fats[i]|
    ensures |v'.fats| == |v.fats| && v'.clusters == v.clusters
    ensures forall i :: 0 <= i < |v.fats| ==> v'.fats[i] == if i < copies then v.fats[i][c := value] else v.fats[i]
  {
    v.(fats := seq(|v.fats|, i requires 0 <= i < |v.fats| => if i < copies then v.fats[i][c := value] else v.fats[i]))
  }

  lemma SetFirstNext(v: Volume, copies: nat, c: nat, value: nat)
    requires copies < |v.fats| && forall i :: 0 <= i < |v.fats| ==> c < |v.fats[i]|
    ensures SetCopy(SetFirst(v, copies, c, value), copies, c, value) == SetFirst(v, copies + 1, c, value)
  {
    assert SetCopy(SetFirst(v, copies, c, value), copies, c, value).fats == SetFirst(v, copies + 1, c, value).fats;
  }

  /** Only entries in `at` may differ between the tables of `v` and `v'`. */
  ghost predicate TablesDifferOnlyAt(v: Volume, v': Volume, at: set<nat>) {
    && SameShape(v, v') && v'.clusters == v.clusters
    && forall i, c :: 0 <= i < |v.fats| && 0 <= c < |v.fats[i]| && c !in at ==> v'.fats[i][c] == v.fats[i][c]
  }

  /** Changing only tables, only at unowned clusters, keeps the invariant. */
  lemma FrameTables(v: Volume, v': Volume, at: set<nat>, spc: nat, root: nat, rc: seq<nat>, files: Files, hole: int)
    requires Inv(v, spc, root, rc, files, hole)
    requires TablesDifferOnlyAt(v, v', at)
    requires forall c :: c in at ==> !Owned(rc, files, c)
    ensures Inv(v', spc, root, rc, files, hole)
    ensures RootSlots(v', spc, rc) == RootSlots(v, spc, rc)
  {
    hide RootOk, Directory, Disjoint;
    Frame(v, v', spc, root, rc, files, hole);
    SlotsFrame(v, v', spc, rc, files, root, hole);
  }

  lemma SlotsFrame(v: Volume, v': Volume, spc: nat, rc: seq<nat>, files: Files, root: nat, hole: int)
    requires Inv(v, spc, root, rc, files, hole) && SameShape(v, v')
    requires forall c :: c in rc && c < |v.clusters| ==> v'.clusters[c] == v.clusters[c]
    ensures Readable(v, Locs(rc, spc)) && Readable(v', Locs(rc, spc))
    ensures RootSlots(v', spc, rc) == RootSlots(v, spc, rc)
  {
    hide Slots, Locs, RootOk, Disjoint, ZeroTail, Indexed, FileOk;
    assert Gather(v', Locs(rc, spc)) == Gather(v, Locs(rc, spc));
  }

  // Walks.

  predicate Linked(fat: seq<nat>, c: nat) { 2 <= c < |fat| }

  /** A cluster number of the table, or an end mark. */
  predicate InTable(fat: seq<nat>, c: nat) { c < |fat| || c >= FAT_EOC }

  /** No link leads outside the table other than to an end mark. */
  ghost predicate LinksInRange(fat: seq<nat>) {
    forall c: nat :: Linked(fat, c) ==> InTable(fat, fat[c])
  }

  /** Nothing on the walk from `first` lies outside the table other than an end mark. */
  ghost predicate WalkInRange(fat: seq<nat>, first: nat) {
    forall k: nat :: InTable(fat, Walk(fat, first, k))
  }

  /** Where `k` steps along the links lead, starting from cluster `c`. */
  ghost function Walk(fat: seq<nat>, c: nat, k: nat): nat
  {
    if k == 0 then c
    else
      var p := Walk(fat, c, k - 1);
      if Linked(fat, p) then fat[p] else p
  }

  lemma {:induction false} LinksKeepWalk(fat: seq<nat>, first: nat, k: nat)
    requires LinksInRange(fat) && InTable(fat, first)
    ensures InTable(fat, Walk(fat, first, k))
  {
    if k > 0 {
      LinksKeepWalk(fat, first, k - 1);
    }
  }

  /** In a table whose links stay in the table, so does every walk: `fat_free_chain` may start anywhere in it. */
  lemma LinksWalk(fat: seq<nat>, first: nat)
    requires LinksInRange(fat) && InTable(fat, first)
    ensures WalkInRange(fat, first)
  {
    forall k: nat ensures InTable(fat, Walk(fat, first, k)) {
      LinksKeepWalk(fat, first, k);
    }
  }

  lemma ChainKeepsWalk(fat: seq<nat>, limit: nat, first: nat, cs: seq<nat>)
    requires limit <= |fat| <= FAT_EOC && 2 <= |fat| && Chain(fat, limit, first, cs)
    ensures WalkInRange(fat, first)
  {
    forall k: nat ensures InTable(fat, Walk(fat, first, k)) {
      if k < |cs| {
        WalkAlongChain(fat, limit, first, cs, k);
      } else if cs == [] {
        WalkStuck(fat, first, 0, k);
      } else {
        WalkAlongChain(fat, limit, first, cs, |cs| - 1);
        WalkStuck(fat, first, |cs|, k);
      }
    }
  }

  lemma WalkStart(fat: seq<nat>, first: nat)
    requires WalkInRange(fat, first)
    ensures InTable(fat, first)
  {
    assert InTable(fat, Walk(fat, first, 0));
  }

  ghost function Visited(fat: seq<nat>, c: nat, k: nat): (s: set<nat>)
  {
    set i | 0 <= i < k && Linked(fat, Walk(fat, c, i)) :: Walk(fat, c, i)
  }

  ghost predicate Reaches(fat: seq<nat>, c: nat, x: nat) {
    exists k: nat :: Walk(fat, c, k) == x && Linked(fat, x)
  }

  /** `v'` is `v` with the entries of every cluster in `s` cleared in every table. */
  ghost predicate Cleared(v: Volume, v': Volume, s: set<nat>) {
    && TablesDifferOnlyAt(v, v', s)
    && forall i, c :: 0 <= i < |v.fats| && 0 <= c < |v.fats[i]| && c in s ==> v'.fats[i][c] == 0
  }

  /** Once a walk comes back to a cluster it has visited, it visits nothing new. */
  lemma {:induction false} WalkClosed(fat: seq<nat>, c: nat, k: nat, j: nat)
    requires Walk(fat, c, k) in Visited(fat, c, k)
    ensures Walk(fat, c, j) in Visited(fat, c, k)
  {
    if j == 0 {
      var i :| 0 <= i < k && Linked(fat, Walk(fat, c, i)) && Walk(fat, c, i) == Walk(fat, c, k);
      VisitedHas(fat, c, k, 0);
    } else {
      WalkClosed(fat, c, k, j - 1);
      var i :| 0 <= i < k && Linked(fat, Walk(fat, c, i)) && Walk(fat, c, i) == Walk(fat, c, j - 1);
      assert Walk(fat, c, j) == Walk(fat, c, i + 1);
      if i + 1 < k {
        VisitedHas(fat, c, k, i + 1);
      }
    }
  }

  /** Everything before a linked cluster on a walk is linked. */
  lemma {:induction false} WalkLinked(fat: seq<nat>, c: nat, k: nat, i: nat)
    requires i <= k && Linked(fat, Walk(fat, c, k))
    ensures Linked(fat, Walk(fat, c, i))
    decreases k - i
  {
    if i < k {
      WalkLinked(fat, c, k, i + 1);
    }
  }

  lemma VisitedHas(fat: seq<nat>, c: nat, k: nat, i: nat)
    requires i < k && Walk(fat, c, k) in Visited(fat, c, k)
    ensures Walk(fat, c, i) in Visited(fat, c, k)
  {
    WalkLinked(fat, c, k, i);
  }

  lemma {:induction false} WalkStuck(fat: seq<nat>, c: nat, k: nat, j: nat)
    requires !Linked(fat, Walk(fat, c, k)) && k <= j
    ensures Walk(fat, c, j) == Walk(fat, c, k)
  {
    if k < j {
      WalkStuck(fat, c, k, j - 1);
    }
  }

  /** A walk that has left the table, or come back to itself, has visited all it can reach. */
  lemma VisitedIsReach(fat: seq<nat>, c: nat, k: nat, x: nat)
    requires !Linked(fat, Walk(fat, c, k)) || Walk(fat, c, k) in Visited(fat, c, k)
    ensures x in Visited(fat, c, k) <==> Reaches(fat, c, x)
  {
    if Reaches(fat, c, x) {
      var j: nat :| Walk(fat, c, j) == x && Linked(fat, x);
      if Walk(fat, c, k) in Visited(fat, c, k) {
        WalkClosed(fat, c, k, j);
      } else if j >= k {
        WalkStuck(fat, c, k, j);
      }
    }
  }

  lemma {:induction false} WalkAlongChain(fat: seq<nat>, limit: nat, first: nat, cs: seq<nat>, i: nat)
    requires limit <= |fat| <= FAT_EOC && Chain(fat, limit, first, cs) && i < |cs|
    ensures Walk(fat, first, i) == cs[i]
  {
    if i > 0 {
      WalkAlongChain(fat, limit, first, cs, i - 1);
      assert fat[cs[i - 1]] == cs[i];
    }
  }

  /** What a proper chain's head reaches is the chain. */
  lemma ChainReach(fat: seq<nat>, limit: nat, first: nat, cs: seq<nat>, x: nat)
    requires limit <= |fat| <= FAT_EOC && Chain(fat, limit, first, cs)
    ensures Reaches(fat, first, x) <==> x in cs
  {
    if x in cs {
      var i :| 0 <= i < |cs| && cs[i] == x;
      WalkAlongChain(fat, limit, first, cs, i);
    }
    if Reaches(fat, first, x) {
      var j: nat :| Walk(fat, first, j) == x && Linked(fat, x);
      if j < |cs| {
        WalkAlongChain(fat, limit, first, cs, j);
      } else if cs == [] {
        WalkStuck(fat, first, 0, j);
      } else {
        WalkAlongChain(fat, limit, first, cs, |cs| - 1);
        WalkStuck(fat, first, |cs|, j);
      }
    }
  }

  // Free clusters.

  /** The clusters below `limit` whose entry is zero. */
  ghost function FreeBelow(fat: seq<nat>, limit: nat): (s: set<nat>)
    ensures forall c :: c in s <==> 2 <= c < limit && c < |fat| && fat[c] == 0
  {
    set c | 2 <= c < limit && c < |fat| && fat[c] == 0
  }

  lemma FreeBelowNext(fat: seq<nat>, limit: nat)
    requires limit < |fat|
    ensures |FreeBelow(fat, limit + 1)| == |FreeBelow(fat, limit)| + if limit >= 2 && fat[limit] == 0 then 1 else 0
  {
    if limit >= 2 && fat[limit] == 0 {
      assert FreeBelow(fat, limit + 1) == FreeBelow(fat, limit) + {limit};
    } else {
      assert FreeBelow(fat, limit + 1) == FreeBelow(fat, limit);
    }
  }

  lemma SameTables(v: Volume)
    ensures TablesDifferOnlyAt(v, v, {})
  {
  }

  lemma SetFirstDiffers(v: Volume, copies: nat, c: nat, value: nat)
    requires copies <= |v.fats| && forall i :: 0 <= i < |v.fats| ==> c < |v.fats[i]|
    ensures TablesDifferOnlyAt(v, SetFirst(v, copies, c, value), {c})
  {
  }

  // Freeing a chain, step by step.

  ghost function ReachSet(fat: seq<nat>, first: nat): (s: set<nat>)
    ensures forall x :: x in s <==> 0 <= x < |fat| && Reaches(fat, first, x)
  {
    set x | 0 <= x < |fat| && Reaches(fat, first, x)
  }

  ghost function NonZero(fat: seq<nat>): set<nat> {
    set x | 0 <= x < |fat| && fat[x] != 0
  }

  /** After `k` clusters were cleared the loop is at the next one, or was stopped by a cleared entry. */
  ghost predicate Progress(fat: seq<nat>, first: nat, k: nat, cluster: nat) {
    cluster == Walk(fat, first, k) || (cluster == 0 && Walk(fat, first, k) in Visited(fat, first, k))
  }

  lemma NothingCleared(v: Volume, first: nat)
    requires v.fats != []
    ensures Cleared(v, v, Visited(v.fats[0], first, 0))
    ensures Progress(v.fats[0], first, 0, first)
  {
  }

  lemma NonZeroShrinks(fat: seq<nat>, c: nat)
    requires c < |fat|
    ensures NonZero(fat[c := 0]) <= NonZero(fat)
    ensures fat[c] != 0 ==> NonZero(fat[c := 0]) < NonZero(fat)
  {
    if fat[c] != 0 {
      assert c in NonZero(fat) && c !in NonZero(fat[c := 0]);
    }
  }

  lemma ClearOne(v: Volume, v': Volume, s: set<nat>, c: nat, copies: nat)
    requires Cleared(v, v', s) && copies <= |v'.fats| && forall i :: 0 <= i < |v'.fats| ==> c < |v'.fats[i]|
    ensures TablesDifferOnlyAt(v, SetFirst(v', copies, c, 0), s + {c})
    ensures copies == |v'.fats| ==> Cleared(v, SetFirst(v', copies, c, 0), s + {c})
  {
  }

  lemma VisitedNext(fat: seq<nat>, first: nat, k: nat)
    requires Linked(fat, Walk(fat, first, k))
    ensures Visited(fat, first, k + 1) == Visited(fat, first, k) + {Walk(fat, first, k)}
    ensures Walk(fat, first, k + 1) == fat[Walk(fat, first, k)]
  {
  }

  lemma VisitedReached(fat: seq<nat>, first: nat, k: nat)
    ensures Visited(fat, first, k) <= ReachSet(fat, first)
  {
  }

  lemma FreeStep(v: Volume, before: Volume, first: nat, k: nat, cluster: nat, copies: nat)
    requires v.fats != [] && before.fats != [] && |before.fats| == |v.fats|
    requires forall i :: 0 <= i < |before.fats| ==> |before.fats[i]| == |v.fats[0]|
    requires 2 <= cluster < |v.fats[0]|
    requires Cleared(v, before, Visited(v.fats[0], first, k)) && Progress(v.fats[0], first, k, cluster)
    requires copies <= |before.fats|
    ensures var fat := v.fats[0];
            var after := SetFirst(before, copies, cluster, 0);
            var next := before.fats[0][cluster];
            var k' := if cluster in Visited(fat, first, k) then k else k + 1;
            && TablesDifferOnlyAt(v, after, ReachSet(fat, first))
            && (copies == |before.fats| ==>
                  Cleared(v, after, Visited(fat, first, k')) && Progress(fat, first, k', next))
            && (next == 0 || next == fat[cluster])
  {
    hide Cleared, TablesDifferOnlyAt, SetFirst, Visited, ReachSet;
    var fat := v.fats[0];
    var s := Visited(fat, first, k);
    VisitedNext(fat, first, k);
    VisitedReached(fat, first, k + 1);
    ClearOne(v, before, s, cluster, copies);
    DiffersMore(v, SetFirst(before, copies, cluster, 0), s + {cluster}, ReachSet(fat, first));
    ClearedAt(v, before, s, cluster);
    assert cluster in s ==> s + {cluster} == s;
  }

  lemma ClearedAt(v: Volume, v': Volume, s: set<nat>, c: nat)
    requires v.fats != [] && |v'.fats| == |v.fats| && |v'.fats[0]| == |v.fats[0]|
    requires Cleared(v, v', s) && c < |v.fats[0]|
    ensures v'.fats[0][c] == if c in s then 0 else v.fats[0][c]
  {
  }

  lemma DiffersMore(v: Volume, v': Volume, s: set<nat>, t: set<nat>)
    requires TablesDifferOnlyAt(v, v', s) && s <= t
    ensures TablesDifferOnlyAt(v, v', t)
  {
  }

  lemma FreeDone(v: Volume, v': Volume, first: nat, k: nat, cluster: nat)
    requires v.fats != [] && |v.fats[0]| <= FAT_EOC
    requires Cleared(v, v', Visited(v.fats[0], first, k)) && Progress(v.fats[0], first, k, cluster)
    requires cluster < 2 || cluster >= FAT_EOC
    ensures Cleared(v, v', ReachSet(v.fats[0], first))
    ensures TablesDifferOnlyAt(v, v', ReachSet(v.fats[0], first))
  {
    var fat := v.fats[0];
    forall x ensures x in Visited(fat, first, k) <==> x in ReachSet(fat, first) {
      if x in Visited(fat, first, k) {
        VisitedReached(fat, first, k);
      } else if x in ReachSet(fat, first) {
        VisitedIsReach(fat, first, k, x);
      }
    }
    assert Visited(fat, first, k) == ReachSet(fat, first);
  }

  // Growing the root directory.

  /** The tables after cluster `c` was taken and linked behind `last`, in every copy. */
  ghost function TakeAndLink(v: Volume, c: nat, last: nat): (v': Volume)
    requires forall i :: 0 <= i < |v.fats| ==> c < |v.fats[i]| && last < |v.fats[i]|
  {
    SetFirst(SetFirst(v, |v.fats|, c, FAT_LAST), |v.fats|, last, c)
  }

  lemma TakeAndLinkTables(v: Volume, c: nat, last: nat)
    requires v.fats != [] && forall i :: 0 <= i < |v.fats| ==> c < |v.fats[i]| && last < |v.fats[i]|
    ensures var v' := TakeAndLink(v, c, last);
            && v'.fats[0] == v.fats[0][c := FAT_LAST][last := c] && v'.clusters == v.clusters
            && SameShape(v, v') && (Mirrored(v) ==> Mirrored(v'))
  {
  }

  lemma TakeAndLinkFree(fat: seq<nat>, c: nat, last: nat, limit: nat)
    requires limit <= |fat| && 2 <= c < |fat| && last < |fat| && fat[last] != 0
    ensures FreeBelow(fat[c := FAT_LAST][last := c], limit) == FreeBelow(fat, limit) - {c}
  {
  }

  lemma ZeroedGrown(v: Volume, v1: Volume, v2: Volume, rc: seq<nat>, c: nat)
    requires v.fats != [] && rc != [] && c < |v.clusters|
    requires forall i :: 0 <= i < |v.fats| ==> c < |v.fats[i]| && rc[|rc| - 1] < |v.fats[i]|
    requires v1 == TakeAndLink(v, c, rc[|rc| - 1]) && OnlyCluster(v1, v2, c) && Zeroed(v2, c, |v2.clusters[c]|)
    ensures Grown(v, v2, rc, c) && v2.fats == v1.fats
  {
    TakeAndLinkTables(v, c, rc[|rc| - 1]);
  }

  lemma LowestFree(fat: seq<nat>, limit: nat, c: nat)
    requires limit <= |fat| && c in FreeBelow(fat, |fat|)
    requires forall x :: x in FreeBelow(fat, |fat|) ==> c <= x
    ensures FreeBelow(fat, limit) != {} <==> c < limit
  {
    if FreeBelow(fat, limit) != {} {
      var x :| x in FreeBelow(fat, limit);
      assert x in FreeBelow(fat, |fat|);
    }
    assert c < limit ==> c in FreeBelow(fat, limit);
  }

  lemma FreeUnowned(v: Volume, spc: nat, root: nat, rc: seq<nat>, files: Files, hole: int, free: set<nat>)
    requires Inv(v, spc, root, rc, files, hole) && free <= FreeBelow(v.fats[0], |v.fats[0]|)
    ensures forall c :: c in free ==> !Owned(rc, files, c)
  {
    hide Inv, Owned;
    forall c | c in free ensures !Owned(rc, files, c) {
      if Owned(rc, files, c) {
        OwnedClusters(v, spc, root, rc, files, hole, c);
      }
    }
  }

  /** The first slot of a cluster put behind a full directory. */
  lemma NewSlot(v: Volume, v': Volume, spc: nat, rc: seq<nat>, c: nat)
    requires v.fats != [] && rc != [] && spc >= 1 && Readable(v, Locs(rc, spc)) && Full(RootSlots(v, spc, rc))
    requires c !in rc && Grown(v, v', rc, c) && |v.clusters[c]| == spc
    ensures Readable(v', Locs(rc + [c], spc))
    ensures var k := 16 * |Locs(rc, spc)|;
            var slots := RootSlots(v', spc, rc + [c]);
            && Fillable(slots, k) && !Live(slots[k])
            && k / 16 < |Locs(rc + [c], spc)| && Locs(rc + [c], spc)[k / 16] == Loc(c, 0)
            && k == |RootSlots(v, spc, rc)| && Extended(RootSlots(v, spc, rc), slots, 16 * spc)
  {
    hide Locs, RootSlots, Grown, Extended;
    GrownSlots(v, v', spc, rc, c);
    LocsAppend(rc, c, spc);
  }

  /** Putting a zeroed free cluster behind a full directory opens its first slot and keeps every file. */
  lemma GrowCommit(v: Volume, v': Volume, spc: nat, root: nat, rc: seq<nat>, files: Files, c: nat)
    requires Inv(v, spc, root, rc, files, NO_HOLE) && Readable(v, Locs(rc, spc)) && Full(RootSlots(v, spc, rc))
    requires c in FreeBelow(v.fats[0], |v.clusters|)
    requires forall i :: 0 <= i < |v.fats| ==> c < |v.fats[i]| && rc[|rc| - 1] < |v.fats[i]|
    requires OnlyCluster(TakeAndLink(v, c, rc[|rc| - 1]), v', c) && Zeroed(v', c, spc)
    ensures Inv(v', spc, root, rc + [c], files, NO_HOLE)
    ensures Readable(v', Locs(rc + [c], spc))
    ensures var k := 16 * |Locs(rc, spc)|;
            var slots := RootSlots(v', spc, rc + [c]);
            && Fillable(slots, k) && !Live(slots[k])
            && k / 16 < |Locs(rc + [c], spc)| && Locs(rc + [c], spc)[k / 16] == Loc(c, 0)
            && k == |RootSlots(v, spc, rc)| && Extended(RootSlots(v, spc, rc), slots, 16 * spc)
  {
    FreeUnowned(v, spc, root, rc, files, NO_HOLE, {c});
    hide Locs, RootSlots, Full, Disjoint, Directory, Chain, Readable, TakeAndLink, Extended;
    TakeAndLinkTables(v, c, rc[|rc| - 1]);
    ZeroedGrown(v, TakeAndLink(v, c, rc[|rc| - 1]), v', rc, c);
    hide Grown, Zeroed, OnlyCluster;
    GrowRoot(v, v', spc, root, rc, files, c);
    NewSlot(v, v', spc, rc, c);
  }

  // A file being written.

  predicate InUse(fat: seq<nat>, c: nat) { c < |fat| && (c < 2 || fat[c] != 0) }

  /** Every cluster in use in `v` is as it was: tables and sectors changed at free clusters only. */
  ghost predicate FreeTouched(v: Volume, v': Volume) {
    && v.fats != [] && SameShape(v, v')
    && (forall i, c: nat :: 0 <= i < |v.fats| && c < |v.fats[i]| && InUse(v.fats[0], c) ==>
          v'.fats[i][c] == v.fats[i][c])
    && (forall c: nat :: c < |v.clusters| && InUse(v.fats[0], c) ==> v'.clusters[c] == v.clusters[c])
  }

  /** What only touches free clusters keeps every file and every directory slot. */
  lemma FrameFree(v: Volume, v': Volume, spc: nat, root: nat, rc: seq<nat>, files: Files, hole: int)
    requires Inv(v, spc, root, rc, files, hole) && FreeTouched(v, v')
    ensures Inv(v', spc, root, rc, files, hole)
    ensures Readable(v, Locs(rc, spc)) && Readable(v', Locs(rc, spc))
    ensures RootSlots(v', spc, rc) == RootSlots(v, spc, rc)
  {
    hide RootOk, Directory, Disjoint, Owned;
    forall c | Owned(rc, files, c) ensures SameCluster(v, v', c) {
      OwnedClusters(v, spc, root, rc, files, hole, c);
      assert InUse(v.fats[0], c);
    }
    Frame(v, v', spc, root, rc, files, hole);
    forall c | c in rc && c < |v.clusters| ensures v'.clusters[c] == v.clusters[c] {
      assert Owned(rc, files, c) by { InRootOwned(rc, files, c); }
    }
    SlotsFrame(v, v', spc, rc, files, root, hole);
  }

  lemma InRootOwned(rc: seq<nat>, files: Files, c: nat)
    requires c in rc
    ensures Owned(rc, files, c)
  {
  }

  /** No table entry outside `cs` changed. */
  ghost predicate KeptOutside(v: Volume, v': Volume, cs: seq<nat>) {
    && SameShape(v, v')
    && forall i, c :: 0 <= i < |v.fats| && 0 <= c < |v.fats[i]| && c !in cs ==> v'.fats[i][c] == v.fats[i][c]
  }

  /** Every cluster of `cs` is free in `fat`. */
  ghost predicate AllFree(fat: seq<nat>, cs: seq<nat>) {
    forall c :: c in cs ==> 2 <= c < |fat| && fat[c] == 0
  }

  /** The clusters `cs` were free in `v`; `v'` has them chained, and no other entry changed. */
  ghost predicate TakenFrom(v: Volume, v': Volume, limit: nat, cs: seq<nat>)
  {
    && FreeTouched(v, v') && limit <= |v.fats[0]|
    && Chain(v'.fats[0], limit, if cs == [] then 0 else cs[0], cs)
    && AllFree(v.fats[0], cs)
    && KeptOutside(v, v', cs)
    && (Mirrored(v) ==> Mirrored(v'))
  }

  lemma NothingTaken(v: Volume, limit: nat)
    requires v.fats != [] && limit <= |v.fats[0]|
    ensures TakenFrom(v, v, limit, [])
  {
  }

  /** Taking one more free cluster and linking it behind the chain. */
  ghost function TakeNext(v: Volume, cs: seq<nat>, c: nat): Volume
    requires forall i :: 0 <= i < |v.fats| ==> c < |v.fats[i]| && forall x :: x in cs ==> x < |v.fats[i]|
  {
    var v1 := SetFirst(v, |v.fats|, c, FAT_LAST);
    if cs == [] then v1
    else
      assert cs[|cs| - 1] in cs;
      SetFirst(v1, |v.fats|, cs[|cs| - 1], c)
  }

  lemma TakenNext(v: Volume, v': Volume, limit: nat, limit': nat, cs: seq<nat>, c: nat)
    requires TakenFrom(v, v', limit, cs) && limit <= limit' <= |v.fats[0]|
    requires forall i :: 0 <= i < |v.fats| ==> |v.fats[i]| == |v.fats[0]|
    requires 2 <= c < limit' && v'.fats[0][c] == 0
    ensures forall x :: x in cs ==> x < |v.fats[0]|
    ensures TakenFrom(v, TakeNext(v', cs, c), limit', cs + [c])
  {
    var w := TakeNext(v', cs, c);
    ChainNonZero(v'.fats[0], limit, cs);
    assert Chain(w.fats[0], limit', (cs + [c])[0], cs + [c]) by { ChainAppend(v'.fats[0], limit, limit', cs, c); }
    assert AllFree(v.fats[0], cs + [c]);
    TakeNextTables(v', cs, c);
    hide TakeNext, SetFirst, Chain, FreeTouched, KeptOutside, AllFree, Mirrored;
    KeptMore(v, v', w, cs, c);
    TouchedMore(v, v', w, cs + [c]);
  }

  lemma KeptMore(v: Volume, v': Volume, w: Volume, cs: seq<nat>, c: nat)
    requires KeptOutside(v, v', cs) && KeptOutside(v', w, cs + [c])
    ensures KeptOutside(v, w, cs + [c])
  {
    assert forall x :: x !in cs + [c] ==> x !in cs;
  }

  lemma TouchedMore(v: Volume, v': Volume, w: Volume, cs: seq<nat>)
    requires FreeTouched(v, v') && KeptOutside(v', w, cs) && AllFree(v.fats[0], cs)
    requires w.clusters == v'.clusters
    ensures FreeTouched(v, w)
  {
    forall i, c: nat | 0 <= i < |v.fats| && c < |v.fats[i]| && InUse(v.fats[0], c)
      ensures w.fats[i][c] == v.fats[i][c]
    {
      assert c !in cs;
      assert w.fats[i][c] == v'.fats[i][c];
    }
  }

  lemma TakeNextTables(v: Volume, cs: seq<nat>, c: nat)
    requires forall i :: 0 <= i < |v.fats| ==> c < |v.fats[i]| && forall x :: x in cs ==> x < |v.fats[i]|
    ensures var w := TakeNext(v, cs, c);
            w.clusters == v.clusters && (Mirrored(v) ==> Mirrored(w)) && KeptOutside(v, w, cs + [c])
  {
    if cs != [] {
      assert cs[|cs| - 1] in cs;
    }
  }

  lemma ChainNonZero(fat: seq<nat>, limit: nat, cs: seq<nat>)
    requires limit <= |fat| && Chain(fat, limit, if cs == [] then 0 else cs[0], cs)
    ensures forall x :: x in cs ==> x < limit && fat[x] != 0
  {
    forall x | x in cs ensures x < limit && fat[x] != 0 {
      InChain(fat, limit, if cs == [] then 0 else cs[0], cs, x);
    }
  }

  lemma ChainAppend(fat: seq<nat>, limit: nat, limit': nat, cs: seq<nat>, c: nat)
    requires limit <= limit' <= |fat| && Chain(fat, limit, if cs == [] then 0 else cs[0], cs)
    requires 2 <= c < limit' && c !in cs
    ensures var fat' := if cs == [] then fat[c := FAT_LAST] else fat[c := FAT_LAST][cs[|cs| - 1] := c];
            Chain(fat', limit', (cs + [c])[0], cs + [c])
  {
  }

  /** An allocation that failed part-way marked a free cluster at most; the chain is still there. */
  lemma AllocFailed(v: Volume, v': Volume, w: Volume, limit: nat, cs: seq<nat>, touched: set<nat>)
    requires TakenFrom(v, v', limit, cs)
    requires TablesDifferOnlyAt(v', w, touched) && touched <= FreeBelow(v'.fats[0], |v'.fats[0]|)
    ensures FreeTouched(v, w)
    ensures Chain(w.fats[0], limit, if cs == [] then 0 else cs[0], cs)
  {
    ChainNonZero(v'.fats[0], limit, cs);
    assert forall c :: c in cs ==> c !in touched;
    assert Chain(w.fats[0], limit, if cs == [] then 0 else cs[0], cs) by {
      ChainSame(v'.fats[0], w.fats[0], limit, cs);
    }
    hide Chain;
    forall c | c in touched ensures !InUse(v.fats[0], c) {
      assert c !in cs;
    }
    TouchedAt(v, v', w, touched);
  }

  lemma ChainSame(fat: seq<nat>, fat': seq<nat>, limit: nat, cs: seq<nat>)
    requires limit <= |fat| == |fat'| && Chain(fat, limit, if cs == [] then 0 else cs[0], cs)
    requires forall c :: c in cs ==> fat'[c] == fat[c]
    ensures Chain(fat', limit, if cs == [] then 0 else cs[0], cs)
  {
  }

  lemma TouchedAt(v: Volume, v': Volume, w: Volume, at: set<nat>)
    requires FreeTouched(v, v') && TablesDifferOnlyAt(v', w, at)
    requires forall c :: c in at ==> !InUse(v.fats[0], c)
    ensures FreeTouched(v, w)
  {
    forall i, c: nat | 0 <= i < |v.fats| && c < |v.fats[i]| && InUse(v.fats[0], c)
      ensures w.fats[i][c] == v.fats[i][c]
    {
      assert w.fats[i][c] == v'.fats[i][c];
    }
  }

  /** Writing the sectors of a cluster that was free keeps every cluster in use. */
  lemma TouchedSectors(v: Volume, v': Volume, w: Volume, c: nat)
    requires FreeTouched(v, v') && OnlyCluster(v', w, c) && !InUse(v.fats[0], c)
    ensures FreeTouched(v, w)
  {
  }

  lemma TakenSectors(v: Volume, v': Volume, w: Volume, limit: nat, cs: seq<nat>, c: nat)
    requires TakenFrom(v, v', limit, cs) && OnlyCluster(v', w, c) && c in cs
    ensures TakenFrom(v, w, limit, cs)
  {
    hide FreeTouched, Chain;
    TouchedSectors(v, v', w, c);
  }

  /** Freeing the chain of a file that could not be finished gives back exactly what it took. */
  lemma Undone(v: Volume, v': Volume, w: Volume, limit: nat, first: nat, cs: seq<nat>)
    requires v.fats != [] && FreeTouched(v, v') && limit <= |v'.fats[0]| <= FAT_EOC && AllFree(v.fats[0], cs)
    requires first == (if cs == [] then 0 else cs[0]) && Chain(v'.fats[0], limit, first, cs)
    requires TablesDifferOnlyAt(v', w, ReachSet(v'.fats[0], first))
    ensures FreeTouched(v, w)
    ensures KeptOutside(v, v', cs) && Cleared(v', w, ReachSet(v'.fats[0], first)) ==> w.fats[0] == v.fats[0]
    ensures KeptOutside(v, v', cs) && Cleared(v', w, ReachSet(v'.fats[0], first)) && Mirrored(v) ==> w.fats == v.fats
  {
    var s := ReachSet(v'.fats[0], first);
    forall c | c in s ensures c in cs && !InUse(v.fats[0], c) {
      ChainReach(v'.fats[0], limit, first, cs, c);
    }
    forall c | c in cs ensures c in s {
      ChainReach(v'.fats[0], limit, first, cs, c);
    }
    hide Chain, ReachSet;
    TouchedAt(v, v', w, s);
    if KeptOutside(v, v', cs) && Cleared(v', w, s) {
      RestoredTables(v, v', w, cs, s);
    }
  }

  lemma RestoredTables(v: Volume, v': Volume, w: Volume, cs: seq<nat>, s: set<nat>)
    requires v.fats != [] && KeptOutside(v, v', cs) && Cleared(v', w, s) && AllFree(v.fats[0], cs)
    requires forall c :: c in s <==> c in cs
    ensures w.fats[0] == v.fats[0] && (Mirrored(v) ==> w.fats == v.fats)
  {
    assert forall x :: 0 <= x < |v.fats[0]| ==> w.fats[0][x] == v.fats[0][x];
    if Mirrored(v) {
      forall i | 0 <= i < |v.fats| ensures w.fats[i] == v.fats[i] {
        assert forall x :: 0 <= x < |v.fats[i]| ==> w.fats[i][x] == v.fats[i][x];
      }
    }
  }

  ghost function SetOf(cs: seq<nat>): set<nat> {
    set c | c in cs
  }

  lemma {:induction false} SetOfSize(cs: seq<nat>)
    requires Distinct(cs)
    ensures |SetOf(cs)| == |cs|
  {
    if cs != [] {
      var init := cs[..|cs| - 1];
      SetOfSize(init);
      assert SetOf(cs) == SetOf(init) + {cs[|cs| - 1]};
    }
  }

  /** What was taken is exactly what is no longer free. */
  lemma TakenFree(v: Volume, v': Volume, limit: nat, cs: seq<nat>, l: nat)
    requires TakenFrom(v, v', limit, cs) && limit <= l <= |v.fats[0]|
    ensures FreeBelow(v'.fats[0], l) == FreeBelow(v.fats[0], l) - SetOf(cs)
    ensures SetOf(cs) <= FreeBelow(v.fats[0], l) && |SetOf(cs)| == |cs|
  {
    ChainNonZero(v'.fats[0], limit, cs);
    SetOfSize(cs);
    hide Chain;
    forall c ensures c in FreeBelow(v'.fats[0], l) <==> c in FreeBelow(v.fats[0], l) - SetOf(cs) {
      if 2 <= c < l && c !in cs {
        assert v'.fats[0][c] == v.fats[0][c];
      }
    }
  }

  // Contents being written.

  /** The sectors of the chain hold the chunks of `data` that fall into them. */
  ghost predicate Stored(v: Volume, spc: nat, cs: seq<nat>, data: seq<byte>) {
    Readable(v, Locs(cs, spc)) && Chunked(Gather(v, Locs(cs, spc)), data)
  }

  /** One more cluster filled with the chunks that follow. */
  lemma StoredNext(v: Volume, v': Volume, spc: nat, cs: seq<nat>, c: nat, data: seq<byte>)
    requires v.fats != [] && Stored(v, spc, cs, data) && c !in cs && OnlyClusterOrTables(v, v', c)
    requires Holding(v', c, spc, data, 512 * |Locs(cs, spc)|)
    ensures Stored(v', spc, cs + [c], data)
  {
    hide Chunk;
    LocsAppend(cs, c, spc);
    var locs, locs' := Locs(cs, spc), Locs(cs + [c], spc);
    hide Locs;
    assert Readable(v', locs');
    forall j | 0 <= j < |locs'| && 512 * j < |data| ensures Gather(v', locs')[j] == Chunk(data, 512 * j) {
      if j < |locs| {
        assert Gather(v, locs)[j] == Chunk(data, 512 * j);
      }
    }
  }

  /** Tables may have changed, sectors in cluster `c` at most. */
  ghost predicate OnlyClusterOrTables(v: Volume, v': Volume, c: nat) {
    && SameShape(v, v')
    && forall x :: 0 <= x < |v.clusters| && x != c ==> v'.clusters[x] == v.clusters[x]
  }

  // Sizes.

  /** How many clusters `size` bytes need. */
  function ClustersFor(size: nat, spc: nat): nat
    requires spc >= 1
  {
    (size + 512 * spc - 1) / (512 * spc)
  }

  lemma NeededCover(size: nat, spc: nat, n: nat)
    requires spc >= 1
    ensures n < ClustersFor(size, spc) <==> 512 * (n * spc) < size
  {
    var cb := 512 * spc;
    var q := ClustersFor(size, spc);
    var r := (size + cb - 1) % cb;
    assert size + cb - 1 == q * cb + r;
    assert 512 * (n * spc) == n * cb;
    if n < q {
      ScaleMonotone(n, q, cb);
    } else {
      ScaleUp(q, n, cb);
    }
  }

  lemma ScaleUp(a: nat, b: nat, k: nat)
    requires a <= b
    ensures a * k <= b * k
  {
  }

  lemma TakenShape(v: Volume, v': Volume, limit: nat, cs: seq<nat>)
    requires TakenFrom(v, v', limit, cs)
    ensures SameShape(v, v') && FreeTouched(v, v') && AllFree(v.fats[0], cs) && KeptOutside(v, v', cs)
    ensures forall i :: 0 <= i < |cs| ==> 2 <= cs[i] < limit <= |v.fats[0]|
    ensures Chain(v'.fats[0], limit, if cs == [] then 0 else cs[0], cs)
  {
  }

  // The two steps of taking a cluster.

  lemma TakenPart(v: Volume, v': Volume, limit: nat, cs: seq<nat>, c: nat)
    requires TakenFrom(v, v', limit, cs) && forall i :: 0 <= i < |v.fats| ==> |v.fats[i]| == |v.fats[0]|
    requires 2 <= c < |v.fats[0]| && v'.fats[0][c] == 0
    ensures var w := SetFirst(v', |v'.fats|, c, FAT_LAST);
            FreeTouched(v, w) && SameShape(v', w)
    ensures cs == [] ==> SetFirst(v', |v'.fats|, c, FAT_LAST) == TakeNext(v', cs, c)
  {
    ChainNonZero(v'.fats[0], limit, cs);
    SetFirstDiffers(v', |v'.fats|, c, FAT_LAST);
    TouchedAt(v, v', SetFirst(v', |v'.fats|, c, FAT_LAST), {c});
  }

  lemma LinkedPart(v: Volume, v': Volume, limit: nat, cs: seq<nat>, c: nat, copies: nat)
    requires TakenFrom(v, v', limit, cs) && forall i :: 0 <= i < |v.fats| ==> |v.fats[i]| == |v.fats[0]|
    requires 2 <= c < |v.fats[0]| && v'.fats[0][c] == 0 && cs != [] && copies <= |v.fats|
    ensures forall x :: x in cs ==> x < |v.fats[0]|
    ensures var u := SetFirst(v', |v'.fats|, c, FAT_LAST);
            var w := SetFirst(u, copies, cs[|cs| - 1], c);
            FreeTouched(v, w) && SameShape(v', w) && (copies == |v.fats| ==> w == TakeNext(v', cs, c))
  {
    ChainNonZero(v'.fats[0], limit, cs);
    TakenPart(v, v', limit, cs, c);
    var u := SetFirst(v', |v'.fats|, c, FAT_LAST);
    var last := cs[|cs| - 1];
    assert last in cs;
    SetFirstDiffers(u, copies, last, c);
    TouchedAt(v, u, SetFirst(u, copies, last, c), {last});
  }

  lemma NotInChain(fat: seq<nat>, limit: nat, cs: seq<nat>, c: nat)
    requires limit <= |fat| && Chain(fat, limit, (cs + [c])[0], cs + [c])
    ensures c !in cs
  {
    var all := cs + [c];
    assert forall i :: 0 <= i < |cs| ==> all[i] == cs[i] && all[i] != all[|cs|];
  }

  lemma ChainStart(fat: seq<nat>, limit: nat, cs: seq<nat>)
    requires limit <= |fat| && Chain(fat, limit, if cs == [] then 0 else cs[0], cs)
    ensures cs != [] ==> cs[0] >= 2
  {
  }

  lemma KeptAll(v: Volume, v': Volume)
    requires v.fats != [] && KeptOutside(v, v', [])
    ensures v'.fats == v.fats
  {
    forall i | 0 <= i < |v.fats| ensures v'.fats[i] == v.fats[i] {
      forall x: nat | x < |v.fats[i]| ensures v'.fats[i][x] == v.fats[i][x] {
        var none: seq<nat> := [];
        assert x !in none;
      }
    }
  }

  // The state of the storing loop.

  ghost predicate StoreState(v: Volume, v': Volume, limit: nat, spc: nat, cs: seq<nat>, data: seq<byte>) {
    TakenFrom(v, v', limit, cs) && Stored(v', spc, cs, data)
  }

  lemma StoreStart(v: Volume, limit: nat, spc: nat, data: seq<byte>)
    requires v.fats != [] && limit <= |v.fats[0]|
    ensures StoreState(v, v, limit, spc, [], data) && FreeTouched(v, v) && Locs([], spc) == []
  {
    NothingTaken(v, limit);
  }

  /** The clusters of the chain were free; when no cluster is left they were all there were. */
  lemma StoreCount(v: Volume, v': Volume, limit: nat, cs: seq<nat>)
    requires TakenFrom(v, v', limit, cs)
    ensures limit <= |v.fats[0]| && |FreeBelow(v.fats[0], limit)| == |FreeBelow(v'.fats[0], limit)| + |cs|
    ensures KeptOutside(v, v', cs) && AllFree(v.fats[0], cs)
  {
    TakenFree(v, v', limit, cs, limit);
    var before, taken := FreeBelow(v.fats[0], limit), SetOf(cs);
    assert before == (before - taken) + taken;
    hide TakenFrom, FreeBelow;
    assert |before| == |before - taken| + |taken|;
  }

  // Releasing the chain of a file.

  lemma FileChain(v: Volume, spc: nat, root: nat, rc: seq<nat>, files: Files, n: Name)
    requires Inv(v, spc, root, rc, files, NO_HOLE) && n in files
    ensures files[n].slot < |RootSlots(v, spc, rc)|
    ensures FileOk(v, spc, RootSlots(v, spc, rc)[files[n].slot], files[n])
    ensures Fillable(RootSlots(v, spc, rc), files[n].slot) && Live(RootSlots(v, spc, rc)[files[n].slot])
  {
    hide Locs, Slots, Gather, Disjoint, RootOk, FileOk;
    var slots := RootSlots(v, spc, rc);
    var k := files[n].slot;
    forall j | 0 <= j < k ensures slots[j][0] != 0 {
    }
  }

  lemma ReachIsChain(fat: seq<nat>, limit: nat, first: nat, cs: seq<nat>)
    requires 2 <= limit <= |fat| <= FAT_EOC && Chain(fat, limit, first, cs)
    ensures ReachSet(fat, first) == SetOf(cs) && WalkInRange(fat, first)
    ensures forall c :: c in SetOf(cs) ==> 2 <= c < limit
  {
    forall x ensures x in ReachSet(fat, first) <==> x in SetOf(cs) {
      ChainReach(fat, limit, first, cs, x);
    }
    ChainKeepsWalk(fat, limit, first, cs);
  }

  lemma ClearedFree(v: Volume, v': Volume, s: set<nat>, l: nat)
    requires v.fats != [] && Cleared(v, v', s) && l <= |v.fats[0]| && forall c :: c in s ==> 2 <= c < l
    ensures FreeBelow(v'.fats[0], l) == FreeBelow(v.fats[0], l) + s
  {
    forall c ensures c in FreeBelow(v'.fats[0], l) <==> c in FreeBelow(v.fats[0], l) + s {
      if 2 <= c < l && c !in s {
        assert v'.fats[0][c] == v.fats[0][c];
      }
    }
  }

  lemma ClearedMirrored(v: Volume, v': Volume, s: set<nat>)
    requires v.fats != [] && Cleared(v, v', s) && Mirrored(v)
    ensures Mirrored(v')
  {
    forall i | 0 <= i < |v.fats| ensures v'.fats[i] == v'.fats[0] {
      assert v.fats[i] == v.fats[0];
      forall x | 0 <= x < |v.fats[0]| ensures v'.fats[i][x] == v'.fats[0][x] {
        if x !in s {
          assert v'.fats[i][x] == v.fats[i][x] && v'.fats[0][x] == v.fats[0][x];
        }
      }
    }
  }

  /** A file's chain released while its slot still names it. */
  lemma Release(v: Volume, v': Volume, spc: nat, root: nat, rc: seq<nat>, files: Files, n: Name)
    requires Inv(v, spc, root, rc, files, NO_HOLE) && n in files
    requires TablesDifferOnlyAt(v, v', SetOf(files[n].chain))
    ensures Inv(v', spc, root, rc, files - {n}, files[n].slot)
    ensures RootSlots(v', spc, rc) == RootSlots(v, spc, rc)
  {
    hide Inv, TablesDifferOnlyAt, RootSlots, Owned;
    OpenHole(v, spc, root, rc, files, n);
    FrameTables(v, v', SetOf(files[n].chain), spc, root, rc, files - {n}, files[n].slot);
  }

  /** A deleted file's chain released. */
  lemma ReleaseErased(v: Volume, v': Volume, spc: nat, root: nat, rc: seq<nat>, files: Files, cs: seq<nat>)
    requires Inv(v, spc, root, rc, files, NO_HOLE) && TablesDifferOnlyAt(v, v', SetOf(cs))
    requires forall c :: c in cs ==> !Owned(rc, files, c)
    ensures Inv(v', spc, root, rc, files, NO_HOLE) && RootSlots(v', spc, rc) == RootSlots(v, spc, rc)
  {
    hide Inv, TablesDifferOnlyAt, RootSlots, Owned;
    FrameTables(v, v', SetOf(cs), spc, root, rc, files, NO_HOLE);
  }

  lemma NothingFreed(v: Volume, limit: nat, first: nat, cs: seq<nat>)
    requires v.fats != [] && limit <= |v.fats[0]| && first < 2 && Chain(v.fats[0], limit, first, cs)
    ensures cs == [] && Cleared(v, v, SetOf(cs))
  {
  }

  lemma ClearedDiffers(v: Volume, v': Volume, s: set<nat>)
    requires Cleared(v, v', s)
    ensures TablesDifferOnlyAt(v, v', s)
  {
  }

  /** Free clusters before and after: some were given back, some were taken. */
  ghost predicate FreeMoved(v: Volume, v': Volume, limit: nat, freed: set<nat>, taken: set<nat>) {
    && v.fats != [] && v'.fats != []
    && FreeBelow(v'.fats[0], limit) == FreeBelow(v.fats[0], limit) + freed - taken
    && FreeBelow(v'.fats[0], |v.fats[0]|) == FreeBelow(v.fats[0], |v.fats[0]|) + freed - taken
  }

  lemma FreedMoves(v: Volume, v': Volume, limit: nat, s: set<nat>)
    requires v.fats != [] && Cleared(v, v', s) && limit <= |v.fats[0]| && forall c :: c in s ==> 2 <= c < limit
    ensures v'.fats != [] && FreeMoved(v, v', limit, s, {})
    ensures Mirrored(v) ==> Mirrored(v')
  {
    ClearedFree(v, v', s, limit);
    ClearedFree(v, v', s, |v.fats[0]|);
    if Mirrored(v) {
      ClearedMirrored(v, v', s);
    }
  }

  lemma GrownMoves(v: Volume, v': Volume, limit: nat, c: nat, last: nat)
    requires v.fats != [] && limit <= |v.fats[0]| && c in FreeBelow(v.fats[0], limit)
    requires forall i :: 0 <= i < |v.fats| ==> c < |v.fats[i]| && last < |v.fats[i]|
    requires v.fats[0][last] != 0 && v'.fats == TakeAndLink(v, c, last).fats
    ensures FreeMoved(v, v', limit, {}, {c}) && (Mirrored(v) ==> Mirrored(v'))
  {
    TakeAndLinkTables(v, c, last);
    TakeAndLinkFree(v.fats[0], c, last, limit);
    TakeAndLinkFree(v.fats[0], c, last, |v.fats[0]|);
  }

  lemma NothingMoves(v: Volume, limit: nat)
    requires v.fats != []
    ensures FreeMoved(v, v, limit, {}, {})
  {
  }

  /** Slot preparation followed by storing. */
  lemma MovesCompose(u: Volume, v: Volume, w: Volume, limit: nat, freed: set<nat>, grown: set<nat>, cs: seq<nat>)
    requires FreeMoved(u, v, limit, freed, grown) && TakenFrom(v, w, limit, cs) && |v.fats[0]| == |u.fats[0]|
    requires limit <= |u.fats[0]|
    ensures w.fats != [] && FreeMoved(u, w, limit, freed, grown + SetOf(cs))
  {
    TakenFree(v, w, limit, cs, limit);
    TakenFree(v, w, limit, cs, |v.fats[0]|);
    TakenShape(v, w, limit, cs);
    hide TakenFrom, FreeBelow;
  }

  /** How much there is to take after preparation. */
  lemma MovedCount(u: Volume, v: Volume, limit: nat, freed: set<nat>, grown: set<nat>)
    requires FreeMoved(u, v, limit, freed, grown)
    requires freed !! FreeBelow(u.fats[0], limit) && grown <= FreeBelow(u.fats[0], limit) + freed
    ensures |FreeBelow(v.fats[0], limit)| == |FreeBelow(u.fats[0], limit)| + |freed| - |grown|
  {
    hide FreeBelow;
    var a := FreeBelow(u.fats[0], limit);
    assert |a + freed| == |a| + |freed|;
    assert (a + freed - grown) + grown == a + freed;
    assert |a + freed - grown| + |grown| == |a + freed|;
  }

  /** A stored chain is what a directory entry may name. */
  lemma StoredFile(v: Volume, v': Volume, spc: nat, root: nat, rc: seq<nat>, files: Files, hole: int, cs: seq<nat>,
                   data: seq<byte>)
    requires Inv(v, spc, root, rc, files, hole) && TakenFrom(v, v', |v.clusters|, cs)
    requires Stored(v', spc, cs, data) && |data| <= 512 * |Locs(cs, spc)|
    ensures Inv(v', spc, root, rc, files, hole) && RootSlots(v', spc, rc) == RootSlots(v, spc, rc)
    ensures Chain(v'.fats[0], |v'.clusters|, if cs == [] then 0 else cs[0], cs) && Spells(v', spc, cs, data)
    ensures forall c :: c in cs ==> !Owned(rc, files, c)
  {
    assert v.fats != [];
    hide Inv, RootSlots, Owned, Chain, FreeTouched, Flatten, Gather, Locs, Chunked;
    TakenShape(v, v', |v.clusters|, cs);
    FrameFree(v, v', spc, root, rc, files, hole);
    ChunkedSpells(Gather(v', Locs(cs, spc)), data);
    assert SetOf(cs) <= FreeBelow(v.fats[0], |v.fats[0]|);
    FreeUnowned(v, spc, root, rc, files, hole, SetOf(cs));
    assert forall c :: c in cs ==> c in SetOf(cs);
  }

  lemma NothingNeeded(spc: nat)
    requires spc >= 1
    ensures ClustersFor(0, spc) == 0
  {
    NeededCover(0, spc, 0);
  }

  lemma StoredNothing(v: Volume, limit: nat, spc: nat)
    requires v.fats != [] && limit <= |v.fats[0]|
    ensures TakenFrom(v, v, limit, []) && FreeTouched(v, v) && Stored(v, spc, [], [])
  {
    NothingTaken(v, limit);
  }

  lemma TakenMirrored(v: Volume, v': Volume, limit: nat, cs: seq<nat>)
    requires TakenFrom(v, v', limit, cs) && Mirrored(v)
    ensures Mirrored(v')
  {
  }

  lemma MirroredFats(v: Volume, v': Volume)
    requires v'.fats == v.fats && Mirrored(v)
    ensures Mirrored(v')
  {
  }

  lemma MovedFats(u: Volume, v: Volume, v': Volume, limit: nat, freed: set<nat>, taken: set<nat>)
    requires FreeMoved(u, v, limit, freed, taken) && v'.fats == v.fats
    ensures FreeMoved(u, v', limit, freed, taken)
  {
  }

  lemma OthersKept(before: Files, n: Name, f: File)
    ensures (before - {n})[n := f] - {n} == before - {n}
  {
  }

  // Overwriting that fails.

  /** A live slot whose first cluster is free belongs to no consistent directory. */
  lemma Dangling(v: Volume, spc: nat, root: nat, rc: seq<nat>, files: Files, k: nat)
    requires k < |RootSlots(v, spc, rc)| && Live(RootSlots(v, spc, rc)[k])
    requires v.fats != [] && 2 <= ClusterOf(RootSlots(v, spc, rc)[k]) < |v.fats[0]|
    requires v.fats[0][ClusterOf(RootSlots(v, spc, rc)[k])] == 0
    ensures !Inv(v, spc, root, rc, files, NO_HOLE)
  {
    if Inv(v, spc, root, rc, files, NO_HOLE) {
      var e := RootSlots(v, spc, rc)[k];
      assert FileOk(v, spc, e, files[NameOf(e)]);
      hide Inv;
      InChain(v.fats[0], |v.clusters|, ClusterOf(e), files[NameOf(e)].chain, ClusterOf(e));
    }
  }

  /** A file that owns no cluster can be put back without writing anything. */
  lemma Rejoin(v: Volume, spc: nat, root: nat, rc: seq<nat>, files: Files, k: nat, n: Name, f: File)
    requires Inv(v, spc, root, rc, files, k) && n !in files && f.slot == k && f.chain == []
    requires k < |RootSlots(v, spc, rc)| && Match(RootSlots(v, spc, rc)[k], n)
    requires Shape(v, spc) && FileOk(v, spc, RootSlots(v, spc, rc)[k], f)
    ensures Inv(v, spc, root, rc, files[n := f], NO_HOLE)
  {
    hide FileOk, RootSlots, Locs, RootOk;
  }

  /**
   * After an overwrite that freed the old clusters and got no further, the directory is consistent
   * exactly when the old file owned none.
   */
  lemma FailedOverwrite(u: Volume, v: Volume, spc: nat, root: nat, rc: seq<nat>, files: Files, n: Name)
    requires Inv(u, spc, root, rc, files, NO_HOLE) && n in files
    requires Inv(v, spc, root, rc, files - {n}, files[n].slot) && RootSlots(v, spc, rc) == RootSlots(u, spc, rc)
    requires SameShape(u, v) && v.fats != [] && forall c :: c in files[n].chain && c < |v.fats[0]| ==> v.fats[0][c] == 0
    ensures (exists fs :: Inv(v, spc, root, rc, fs, NO_HOLE)) <==> files[n].chain == []
  {
    hide Inv, RootSlots, Spells, Chain;
    var f, k := files[n], files[n].slot;
    FileChain(u, spc, root, rc, files, n);
    InvShape(u, spc, root, rc, files, NO_HOLE);
    InvShape(v, spc, root, rc, files - {n}, k);
    InvDirectory(u, spc, root, rc, files, NO_HOLE);
    var e := RootSlots(u, spc, rc)[k];
    assert NameOf(e) == n by { NameAt(RootSlots(u, spc, rc), files, n); }
    if f.chain == [] {
      EmptyFile(u, v, spc, e, f);
      Rejoin(v, spc, root, rc, files - {n}, k, n, f);
    } else {
      ChainHead(u.fats[0], |u.clusters|, ClusterOf(e), f.chain);
      forall fs ensures !Inv(v, spc, root, rc, fs, NO_HOLE) {
        Dangling(v, spc, root, rc, fs, k);
      }
    }
  }

  lemma NameAt(slots: seq<seq<byte>>, files: Files, n: Name)
    requires Entries(slots) && Indexed(slots, files, NO_HOLE) && n in files
    ensures files[n].slot < |slots| && NameOf(slots[files[n].slot]) == n
  {
  }

  lemma EmptyFile(u: Volume, v: Volume, spc: nat, e: seq<byte>, f: File)
    requires Shape(u, spc) && Shape(v, spc) && |e| == 32 && f.chain == [] && FileOk(u, spc, e, f)
    ensures FileOk(v, spc, e, f)
  {
  }

  lemma ChainHead(fat: seq<nat>, limit: nat, first: nat, cs: seq<nat>)
    requires limit <= |fat| && cs != [] && Chain(fat, limit, first, cs)
    ensures first in cs && 2 <= first < limit
  {
  }

  /** The bytes every name stands for. */
  ghost function DataOf(files: Files): map<Name, seq<byte>> {
    map n | n in files :: files[n].data
  }

  lemma ContentsUpdated(before: Files, after: Files, n: Name)
    requires n in after && after - {n} == before - {n}
    ensures DataOf(after) == DataOf(before)[n := after[n].data]
  {
    forall m | m in after && m != n ensures m in before && after[m] == before[m] {
      assert m in after - {n};
    }
    forall m | m in before && m != n ensures m in after {
      assert m in before - {n};
    }
  }

  lemma ContentsRemoved(before: Files, n: Name)
    ensures DataOf(before - {n}) == DataOf(before) - {n}
  {
  }

  lemma MovedFrom(u: Volume, v: Volume, v': Volume, limit: nat, freed: set<nat>, taken: set<nat>)
    requires FreeMoved(v, v', limit, freed, taken) && v.fats == u.fats
    ensures FreeMoved(u, v', limit, freed, taken)
  {
  }

  // Reading a file back.

  /** The bytes of `data` that sector `s` of the `ci`-th cluster of its chain holds. */
  lemma SpelledSector(v: Volume, spc: nat, cs: seq<nat>, data: seq<byte>, ci: nat, s: nat)
    requires Spells(v, spc, cs, data) && ci < |cs| && s < spc && cs[ci] < |v.clusters| && s < |v.clusters[cs[ci]]|
    requires 512 * (|Locs(cs[..ci], spc)| + s) < |data|
    ensures var at := 512 * (|Locs(cs[..ci], spc)| + s);
            var chunk := if |data| - at < 512 then |data| - at else 512;
            data[at..at + chunk] == v.clusters[cs[ci]][s][..chunk]
  {
    hide Locs, Gather, Flatten, Readable;
    var locs := Locs(cs, spc);
    LocAt(cs, ci, s, spc);
    var t := |Locs(cs[..ci], spc)| + s;
    var secs := Gather(v, locs);
    GatherAt(v, locs, t);
    FlattenAt(secs, t);
    var flat := Flatten(secs);
    var chunk := if |data| - 512 * t < 512 then |data| - 512 * t else 512;
    PrefixSlice(data, flat, 512 * t, chunk, 512);
  }

  lemma PrefixSlice(data: seq<byte>, flat: seq<byte>, at: nat, n: nat, m: nat)
    requires data <= flat && at + n <= |data| && n <= m && at + m <= |flat|
    ensures data[at..at + n] == flat[at..at + m][..n]
  {
    var t, u := data[at..at + n], flat[at..at + m][..n];
    forall i | 0 <= i < n ensures t[i] == u[i] {
      assert data[at + i] == flat[at + i];
    }
  }

  lemma SpelledAll(v: Volume, spc: nat, cs: seq<nat>, data: seq<byte>)
    requires Spells(v, spc, cs, data)
    ensures |data| <= 512 * |Locs(cs, spc)| && Locs(cs[..0], spc) == [] && cs[..|cs|] == cs
  {
    hide Flatten;
  }

  lemma NoneFree(fat: seq<nat>)
    ensures FreeBelow(fat, 0) == {}
  {
  }

  lemma ChainAt(fat: seq<nat>, limit: nat, first: nat, cs: seq<nat>, i: nat)
    requires limit <= |fat| && Chain(fat, limit, first, cs)
    ensures if cs == [] then first < 2 else first == cs[0] && 2 <= first < limit
    ensures i < |cs| ==> 2 <= cs[i] < limit
    ensures i + 1 < |cs| ==> fat[cs[i]] == cs[i + 1] && 2 <= cs[i + 1] < limit
    ensures i + 1 == |cs| ==> fat[cs[i]] >= FAT_EOC
  {
  }
}
