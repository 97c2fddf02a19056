/** The page loop of `heap_expand` (kernel/heap.c) over the page tables: what it maps, and when frames run out. */
module HeapPages {
  import opened PageTables
  import opened Paging
  import Pmm

  const HEAP_FLAGS: nat := 3

  /** The tables page `w` lacks. */
  ghost function Lacking(tables: set<Node>, w: nat): set<Node> {
    set k | 1 <= k <= 3 && On(w, k) !in tables :: On(w, k)
  }

  /** The tables the pages from `lo` up to `hi` lack. */
  ghost function TablesLacking(tables: set<Node>, lo: nat, hi: nat): set<Node>
    decreases hi
  {
    if hi <= lo then {} else TablesLacking(tables, lo, hi - 1) + Lacking(tables, hi - 1)
  }

  /** The frames that mapping the pages from `lo` up to `hi` takes. */
  ghost function FramesFor(tables: set<Node>, lo: nat, hi: nat): nat
    requires lo <= hi
  {
    hi - lo + |TablesLacking(tables, lo, hi)|
  }

  lemma {:induction false} LackingNew(tables: set<Node>, lo: nat, hi: nat)
    ensures TablesLacking(tables, lo, hi) * tables == {}
    decreases hi
  {
    if lo < hi {
      LackingNew(tables, lo, hi - 1);
    }
  }

  /** One more page lacks what is missing for it once the others are there. */
  lemma LackingNext(tables: set<Node>, lo: nat, w: nat)
    requires lo <= w
    ensures var now := tables + TablesLacking(tables, lo, w);
            && TablesLacking(tables, lo, w + 1) == TablesLacking(tables, lo, w) + Lacking(now, w)
            && |TablesLacking(tables, lo, w + 1)| == |TablesLacking(tables, lo, w)| + |Lacking(now, w)|
  {
    var before := TablesLacking(tables, lo, w);
    var now := tables + before;
    hide TablesLacking, On;
    assert TablesLacking(tables, lo, w + 1) == before + Lacking(tables, w) by { LackingStep(tables, lo, w); }
    assert before + Lacking(tables, w) == before + Lacking(now, w);
    assert before * Lacking(now, w) == {};
  }

  lemma LackingStep(tables: set<Node>, lo: nat, w: nat)
    requires lo <= w
    ensures TablesLacking(tables, lo, w + 1) == TablesLacking(tables, lo, w) + Lacking(tables, w)
  {
  }

  /** A walk ends in a table that is there. */
  lemma {:induction false} EndsInTable(mem: Memory, root: nat, tables: map<Node, nat>, from: nat, w: nat)
    requires Tree(mem, root, tables) && On(w, from) in tables && 1 <= from <= 4
    ensures On(w, Walk(mem, tables[On(w, from)], from, w).level) in tables
    decreases from
  {
    hide EntryOf, Large, Present;
    WalkStep(mem, root, tables, from, w);
    if NamesTable(from, EntryOf(mem[tables[On(w, from)]], Index(w, from))) {
      EndsInTable(mem, root, tables, from - 1, w);
    }
  }

  /** The level a walk ends at counts the tables it lacks. */
  lemma LevelCounts(mem: Memory, root: nat, tables: map<Node, nat>, w: nat)
    requires Tree(mem, root, tables) && w < PAGES
    ensures Walk(mem, root, 4, w).level == 1 + |Lacking(tables.Keys, w)|
  {
    OnRoot(w);
    var n := Walk(mem, root, 4, w).level;
    EndsInTable(mem, root, tables, 4, w);
    forall k | 1 <= k <= 3 ensures On(w, k) in tables <==> n <= k {
      if n <= k {
        TablesAbove(mem, root, tables, w, n, k);
      }
      if On(w, k) in tables {
        WalkReaches(mem, root, tables, k, w, 4);
      }
    }
    hide Tree, Walk;
    LackingBelow(tables.Keys, w, n);
  }

  lemma LackingBelow(tables: set<Node>, w: nat, n: nat)
    requires 1 <= n <= 4 && forall k :: 1 <= k <= 3 ==> (On(w, k) in tables <==> n <= k)
    ensures |Lacking(tables, w)| == n - 1
  {
    var a, b, c := On(w, 1), On(w, 2), On(w, 3);
    assert a != b && b != c && a != c;
    hide On;
    if n == 1 {
      assert Lacking(tables, w) == {};
    } else if n == 2 {
      assert Lacking(tables, w) == {a};
    } else if n == 3 {
      assert Lacking(tables, w) == {a, b};
    } else {
      assert Lacking(tables, w) == {a, b, c};
    }
  }

  /** The tables after a page was mapped. */
  lemma TablesGrown(mem: Memory, root: nat, tables: map<Node, nat>, mem': Memory, tables': map<Node, nat>,
                    free: set<nat>, free': set<nat>, w: nat)
    requires Tree(mem', root, tables') && w < PAGES && Walk(mem', root, 4, w).level == 1
    requires Extends(mem, tables, free, mem', tables', free') && |tables'| == |tables| + |Lacking(tables.Keys, w)|
    ensures tables'.Keys == tables.Keys + Lacking(tables.Keys, w)
  {
    OnRoot(w);
    EndsInTable(mem', root, tables', 4, w);
    forall k | 1 <= k <= 3 ensures On(w, k) in tables' {
      TablesAbove(mem', root, tables', w, 1, k);
    }
    hide Tree, Walk, On;
    var all := tables.Keys + Lacking(tables.Keys, w);
    assert tables.Keys * Lacking(tables.Keys, w) == {};
    assert all <= tables'.Keys;
    SameSize(all, tables'.Keys);
  }

  lemma SameSize(a: set<Node>, b: set<Node>)
    requires a <= b && |a| == |b|
    ensures a == b
  {
    assert b == a + (b - a);
  }

  lemma ExtendsWiden(mem: Memory, tables: map<Node, nat>, free: set<nat>, f: nat, mem': Memory,
                     tables': map<Node, nat>, free': set<nat>)
    requires Extends(mem, tables, free - {f}, mem', tables', free')
    ensures Extends(mem, tables, free, mem', tables', free')
  {
  }

  /** A heap page is mapped by a writable last-level entry. */
  predicate HeapPage(p: Path) { p.Mapped() && p.level == 1 && Writable(p.entry) }

  /** One round of the loop: a frame is taken and mapped, and running out of frames for tables goes unnoticed. */
  method MapOne(vm: AddressSpace, virt: nat) returns (taken: bool)
    requires vm.Valid() && (vm.pmm.Free() != {} ==> !vm.PathTo(PageOf(virt)).Mapped())
    modifies vm`mem, vm`tables, vm.pmm`freeMemory, vm.pmm.bitmap
    ensures vm.Valid() && Extends(old(vm.mem), old(vm.tables), old(vm.pmm.Free()), vm.mem, vm.tables, vm.pmm.Free())
    ensures Preserved(old(vm.mem), vm.mem, vm.root, HEAP_FLAGS, PageOf(virt))
    ensures vm.PathTo(PageOf(virt)).writable == old(vm.PathTo(PageOf(virt))).writable
    ensures taken <==> old(vm.pmm.Free()) != {}
    ensures !taken ==> vm.mem == old(vm.mem) && vm.tables == old(vm.tables) && vm.pmm.Free() == {}
    ensures taken ==> |vm.pmm.Free()| < |old(vm.pmm.Free())|
    ensures taken ==>
              var lack := Lacking(old(vm.tables).Keys, PageOf(virt));
              if |old(vm.pmm.Free())| >= 1 + |lack| then
                && HeapPage(vm.PathTo(PageOf(virt)))
                && vm.tables.Keys == old(vm.tables).Keys + lack && |vm.pmm.Free()| + 1 + |lack| == |old(vm.pmm.Free())|
              else !vm.PathTo(PageOf(virt)).Mapped() && vm.pmm.Free() == {}
  {
    hide Walk, Tree, Extends, Preserved, Lacking, LeafEntry, User, Present, Writable, Pmm.FrameAllocator.InUse;
    ghost var w := PageOf(virt);
    ghost var m0, t0, f0 := vm.mem, vm.tables, vm.pmm.Free();
    ExtendsSelf(m0, t0, f0);
    PreservedSelf(m0, vm.root, HEAP_FLAGS);
    PreservedExcept(m0, m0, vm.root, HEAP_FLAGS, w);
    LevelCounts(m0, vm.root, t0, w);
    var addr := vm.pmm.AllocPage();
    if addr == 0 {
      return false;
    }
    HeapFlags();
    vm.MapPage(addr, virt, HEAP_FLAGS);
    ExtendsWiden(m0, t0, f0, addr / 4096, vm.mem, vm.tables, vm.pmm.Free());
    if |f0| >= 1 + |Lacking(t0.Keys, w)| {
      TablesGrown(m0, vm.root, t0, vm.mem, vm.tables, f0, vm.pmm.Free(), w);
    }
    return true;
  }

  lemma HeapFlags()
    ensures Writable(HEAP_FLAGS)
  {
  }

  /** The pages from `lo` up to `hi` are mapped. */
  ghost predicate Backed(mem: Memory, root: nat, lo: nat, hi: nat) {
    forall w: nat :: lo <= w < hi ==> HeapPage(Walk(mem, root, 4, w))
  }

  ghost predicate Unmapped(mem: Memory, root: nat, lo: nat, hi: nat) {
    forall w: nat :: lo <= w < hi ==> !Walk(mem, root, 4, w).Mapped()
  }

  /** Translations outside the pages from `lo` up to `hi` are as they were, and the tables' rights everywhere. */
  ghost predicate Around(mem: Memory, mem': Memory, root: nat, lo: nat, hi: nat) {
    forall x: nat :: x < PAGES ==>
      var p, q := Walk(mem, root, 4, x), Walk(mem', root, 4, x);
      q.writable == p.writable && (!(lo <= x < hi) ==> SameTranslation(p, q, HEAP_FLAGS))
  }

  /**
   * What the loop has done after pages `lo` up to `w`, with `free` frames to begin with: everything is mapped, or the
   * frames ran out inside the mapping of the last page.
   */
  ghost predicate Mapping(m0: Memory, t0: set<Node>, free: nat, mem: Memory, tables: set<Node>, left: nat, root: nat,
                          lo: nat, w: nat) {
    lo <= w &&
    if free >= FramesFor(t0, lo, w) then
      Backed(mem, root, lo, w) && tables == t0 + TablesLacking(t0, lo, w) && left + FramesFor(t0, lo, w) == free
    else
      && lo < w && free > FramesFor(t0, lo, w - 1) && left == 0
      && Backed(mem, root, lo, w - 1) && !Walk(mem, root, 4, w - 1).Mapped()
  }

  lemma MappingNext(m0: Memory, t0: set<Node>, free: nat, mem: Memory, tables: set<Node>, left: nat,
                    mem': Memory, tables': set<Node>, left': nat, root: nat, lo: nat, w: nat)
    requires Mapping(m0, t0, free, mem, tables, left, root, lo, w) && left > 0 && w < PAGES
    requires Preserved(mem, mem', root, HEAP_FLAGS, w)
    requires var lack := Lacking(tables, w);
             if left >= 1 + |lack| then
               HeapPage(Walk(mem', root, 4, w)) && tables' == tables + lack && left' + 1 + |lack| == left
             else !Walk(mem', root, 4, w).Mapped() && left' == 0
    ensures Mapping(m0, t0, free, mem', tables', left', root, lo, w + 1)
  {
    hide Walk, Lacking, TablesLacking, Present, Writable, User;
    LackingNext(t0, lo, w);
    assert Backed(mem, root, lo, w);
    forall x: nat | lo <= x < w ensures HeapPage(Walk(mem', root, 4, x)) {
      assert SameTranslation(Walk(mem, root, 4, x), Walk(mem', root, 4, x), HEAP_FLAGS);
    }
  }

  lemma AroundNext(m0: Memory, mem: Memory, mem': Memory, root: nat, lo: nat, w: nat)
    requires lo <= w && Around(m0, mem, root, lo, w) && Preserved(mem, mem', root, HEAP_FLAGS, w)
    requires Walk(mem', root, 4, w).writable == Walk(mem, root, 4, w).writable
    ensures Around(m0, mem', root, lo, w + 1)
  {
    hide Walk, Present, User;
  }

  lemma UnmappedNext(mem: Memory, mem': Memory, root: nat, w: nat, hi: nat)
    requires Unmapped(mem, root, w, hi) && Preserved(mem, mem', root, HEAP_FLAGS, w) && hi <= PAGES
    ensures Unmapped(mem', root, w + 1, hi)
  {
    hide Walk, Present, User;
  }

  /** Page `i` behind the one of `virt`. */
  lemma PageBehind(virt: nat, i: nat)
    requires virt % 4096 == 0 && PageOf(virt) + i < PAGES
    ensures PageOf(virt + 4096 * i) == PageOf(virt) + i
  {
    assert (virt + 4096 * i) / 4096 == virt / 4096 + i;
  }

  /**
   * The page loop of `heap_expand`, from the unmapped address `limit` on. It goes through the pages until the frames
   * are exhausted at the beginning of a round, and everything it went through is mapped if and only if the frames
   * sufficed for the tables of the last page too.
   */
  method MapPages(vm: AddressSpace, limit: nat, total: nat) returns (ok: bool, mapped: nat)
    requires vm.Valid() && limit % 4096 == 0 && PageOf(limit) + |vm.pmm.Free()| < PAGES
    requires Unmapped(vm.mem, vm.root, PageOf(limit), PageOf(limit) + |vm.pmm.Free()|)
    modifies vm`mem, vm`tables, vm.pmm`freeMemory, vm.pmm.bitmap
    ensures vm.Valid() && mapped % 4096 == 0 && mapped / 4096 + |vm.pmm.Free()| <= |old(vm.pmm.Free())|
    ensures Extends(old(vm.mem), old(vm.tables), old(vm.pmm.Free()), vm.mem, vm.tables, vm.pmm.Free())
    ensures Around(old(vm.mem), vm.mem, vm.root, PageOf(limit), PageOf(limit) + mapped / 4096)
    ensures var n, m, lo := (total + 4095) / 4096, mapped / 4096, PageOf(limit);
            var free, tables := |old(vm.pmm.Free())|, old(vm.tables).Keys;
            && (m == 0 || (free > FramesFor(tables, lo, lo + m - 1) && Backed(vm.mem, vm.root, lo, lo + m - 1)))
            && (if ok then m == n else m < n && free <= FramesFor(tables, lo, lo + m))
            && (Backed(vm.mem, vm.root, lo, lo + m) <==> free >= FramesFor(tables, lo, lo + m))
            && (Backed(vm.mem, vm.root, lo, lo + m) || (m > 0 && !vm.PathTo(lo + m - 1).Mapped()))
  {
    hide Walk, Tree, Extends, Around, Unmapped, FramesFor, Mapping, Looping, Pmm.FrameAllocator.InUse, HeapPage;
    ghost var lo, n, hi := PageOf(limit), (total + 4095) / 4096, PageOf(limit) + |vm.pmm.Free()|;
    ghost var s := Stage(vm.mem, vm.root, vm.tables, vm.pmm.Free());
    mapped := 0;
    LoopStarts(s, lo, hi);
    while mapped < total
      invariant mapped % 4096 == 0 && mapped / 4096 <= n && vm.Valid() && (mapped < total <==> mapped / 4096 < n)
      invariant mapped / 4096 + |vm.pmm.Free()| <= |s.free|
      invariant Looping(s, Stage(vm.mem, vm.root, vm.tables, vm.pmm.Free()), lo, lo + mapped / 4096, hi)
      decreases total - mapped
    {
      PageBehind(limit, mapped / 4096);
      var taken := MapRound(vm, limit + mapped, s, lo, hi);
      if !taken {
        LoopEnds(s, Stage(vm.mem, vm.root, vm.tables, vm.pmm.Free()), lo, lo + mapped / 4096, hi);
        return false, mapped;
      }
      mapped := mapped + 4096;
    }
    LoopEnds(s, Stage(vm.mem, vm.root, vm.tables, vm.pmm.Free()), lo, lo + n, hi);
    ok := true;
  }

  /** The page tables and the frames between two rounds. */
  datatype Stage = Stage(mem: Memory, root: nat, tables: map<Node, nat>, free: set<nat>)

  /** The loop began at `s`, is at `t`, went through the pages from `lo` up to `w` and is to go up to `hi`. */
  ghost predicate Looping(s: Stage, t: Stage, lo: nat, w: nat, hi: nat) {
    && lo <= w && t.root == s.root && Extends(s.mem, s.tables, s.free, t.mem, t.tables, t.free)
    && Around(s.mem, t.mem, s.root, lo, w) && Unmapped(t.mem, s.root, w, hi)
    && Mapping(s.mem, s.tables.Keys, |s.free|, t.mem, t.tables.Keys, |t.free|, s.root, lo, w)
    && (w == lo || |s.free| > FramesFor(s.tables.Keys, lo, w - 1))
  }

  lemma LoopStarts(s: Stage, lo: nat, hi: nat)
    requires Unmapped(s.mem, s.root, lo, hi)
    ensures Looping(s, s, lo, lo, hi)
  {
    hide Extends, Around, Unmapped, Mapping;
    MappingStart(s.mem, s.tables.Keys, s.free, s.root, lo);
    ExtendsSelf(s.mem, s.tables, s.free);
  }

  lemma LoopEnds(s: Stage, t: Stage, lo: nat, w: nat, hi: nat)
    requires Looping(s, t, lo, w, hi)
    ensures Extends(s.mem, s.tables, s.free, t.mem, t.tables, t.free) && Around(s.mem, t.mem, s.root, lo, w)
    ensures Unmapped(t.mem, s.root, w, hi) && (w == lo || |s.free| > FramesFor(s.tables.Keys, lo, w - 1))
    ensures lo <= w && (Backed(t.mem, s.root, lo, w) <==> |s.free| >= FramesFor(s.tables.Keys, lo, w))
    ensures lo < w ==> Backed(t.mem, s.root, lo, w - 1)
    ensures Backed(t.mem, s.root, lo, w) || (lo < w && !Walk(t.mem, s.root, 4, w - 1).Mapped())
    ensures t.free == {} ==> |s.free| <= FramesFor(s.tables.Keys, lo, w)
  {
    hide Extends, Around, Unmapped, FramesFor, Backed, Walk;
    MappingBacked(s.mem, s.tables.Keys, |s.free|, t.mem, t.tables.Keys, |t.free|, s.root, lo, w);
    if t.free == {} {
      MappingEnds(s.mem, s.tables.Keys, |s.free|, t.mem, t.tables.Keys, s.root, lo, w);
    }
  }

  lemma LoopNext(s: Stage, t: Stage, t': Stage, lo: nat, w: nat, hi: nat)
    requires Looping(s, t, lo, w, hi) && w < hi <= PAGES && t.free != {} && t'.root == s.root
    requires Extends(t.mem, t.tables, t.free, t'.mem, t'.tables, t'.free)
    requires Preserved(t.mem, t'.mem, s.root, HEAP_FLAGS, w)
    requires Walk(t'.mem, s.root, 4, w).writable == Walk(t.mem, s.root, 4, w).writable
    requires var lack := Lacking(t.tables.Keys, w);
             if |t.free| >= 1 + |lack| then
               && HeapPage(Walk(t'.mem, s.root, 4, w)) && t'.tables.Keys == t.tables.Keys + lack
               && |t'.free| + 1 + |lack| == |t.free|
             else !Walk(t'.mem, s.root, 4, w).Mapped() && t'.free == {}
    ensures Looping(s, t', lo, w + 1, hi)
  {
    MoreThanNeeded(s, t, lo, w, hi);
    hide Extends, Around, Unmapped, FramesFor, Mapping, Preserved, Lacking, HeapPage, Walk;
    ExtendsTransitive(s.mem, s.tables, s.free, t.mem, t.tables, t.free, t'.mem, t'.tables, t'.free);
    AroundNext(s.mem, t.mem, t'.mem, s.root, lo, w);
    UnmappedNext(t.mem, t'.mem, s.root, w, hi);
    MappingNext(s.mem, s.tables.Keys, |s.free|, t.mem, t.tables.Keys, |t.free|, t'.mem, t'.tables.Keys, |t'.free|,
        s.root, lo, w);
  }

  lemma MoreThanNeeded(s: Stage, t: Stage, lo: nat, w: nat, hi: nat)
    requires Looping(s, t, lo, w, hi) && t.free != {}
    ensures |s.free| > FramesFor(s.tables.Keys, lo, w) && |t.free| > 0
  {
    hide Extends, Around, Unmapped, FramesFor, Backed, Walk;
    assert |t.free| > 0;
  }

  /** One round, as part of the loop that began at `s`. */
  method MapRound(vm: AddressSpace, virt: nat, ghost s: Stage, ghost lo: nat, ghost hi: nat) returns (taken: bool)
    requires vm.Valid() && hi <= PAGES && (vm.pmm.Free() != {} ==> PageOf(virt) < hi)
    requires Looping(s, Stage(vm.mem, vm.root, vm.tables, vm.pmm.Free()), lo, PageOf(virt), hi)
    modifies vm`mem, vm`tables, vm.pmm`freeMemory, vm.pmm.bitmap
    ensures vm.Valid() && (taken ==> |vm.pmm.Free()| < |old(vm.pmm.Free())|)
    ensures taken ==> Looping(s, Stage(vm.mem, vm.root, vm.tables, vm.pmm.Free()), lo, PageOf(virt) + 1, hi)
    ensures !taken ==>
              vm.pmm.Free() == {} && Looping(s, Stage(vm.mem, vm.root, vm.tables, vm.pmm.Free()), lo, PageOf(virt), hi)
  {
    hide Walk, Tree, Extends, Preserved, Looping, Lacking, HeapPage, Present, Pmm.FrameAllocator.InUse;
    ghost var t, w := Stage(vm.mem, vm.root, vm.tables, vm.pmm.Free()), PageOf(virt);
    if t.free != {} {
      LoopUnmapped(s, t, lo, w, hi);
    }
    LoopRoot(s, t, lo, w, hi);
    taken := MapOne(vm, virt);
    if taken {
      LoopNext(s, t, Stage(vm.mem, vm.root, vm.tables, vm.pmm.Free()), lo, w, hi);
    }
  }

  lemma LoopRoot(s: Stage, t: Stage, lo: nat, w: nat, hi: nat)
    requires Looping(s, t, lo, w, hi)
    ensures t.root == s.root
  {
  }

  lemma LoopUnmapped(s: Stage, t: Stage, lo: nat, w: nat, hi: nat)
    requires Looping(s, t, lo, w, hi) && w < hi
    ensures !Walk(t.mem, t.root, 4, w).Mapped() && t.root == s.root
  {
    hide Walk, Extends, Around, Mapping;
    UnmappedAt(t.mem, s.root, w, hi);
  }

  lemma MappingStart(m0: Memory, t0: set<Node>, f0: set<nat>, root: nat, lo: nat)
    ensures Mapping(m0, t0, |f0|, m0, t0, |f0|, root, lo, lo) && Around(m0, m0, root, lo, lo)
  {
    hide Walk;
    assert t0 + TablesLacking(t0, lo, lo) == t0;
  }

  lemma UnmappedAt(mem: Memory, root: nat, w: nat, hi: nat)
    requires Unmapped(mem, root, w, hi) && w < hi
    ensures !Walk(mem, root, 4, w).Mapped()
  {
    hide Walk;
  }

  lemma MappingBacked(m0: Memory, t0: set<Node>, free: nat, mem: Memory, tables: set<Node>, left: nat, root: nat,
                      lo: nat, w: nat)
    requires Mapping(m0, t0, free, mem, tables, left, root, lo, w)
    ensures Backed(mem, root, lo, w) <==> free >= FramesFor(t0, lo, w)
    ensures lo < w ==> Backed(mem, root, lo, w - 1)
    ensures Backed(mem, root, lo, w) || (lo < w && !Walk(mem, root, 4, w - 1).Mapped())
  {
    hide Walk, FramesFor;
  }

  /** Without a frame to take, the frames were no more than needed so far. */
  lemma MappingEnds(m0: Memory, t0: set<Node>, free: nat, mem: Memory, tables: set<Node>, root: nat, lo: nat, w: nat)
    requires Mapping(m0, t0, free, mem, tables, 0, root, lo, w)
    ensures free <= FramesFor(t0, lo, w) && (Backed(mem, root, lo, w) <==> free >= FramesFor(t0, lo, w))
  {
    hide Walk;
    MappingBacked(m0, t0, free, mem, tables, 0, root, lo, w);
  }

  /** More pages take more frames. */
  lemma {:induction false} FramesGrow(tables: set<Node>, lo: nat, m: nat, n: nat)
    requires lo <= m <= n
    ensures FramesFor(tables, lo, m) + (n - m) <= FramesFor(tables, lo, n)
    decreases n
  {
    if m < n {
      FramesGrow(tables, lo, m, n - 1);
      hide TablesLacking, Lacking;
      LackingNext(tables, lo, n - 1);
    }
  }
}
