/** The virtual memory manager of kernel/vmm.c over the frames of kernel/pmm.c. */
module Paging {
  import opened Bytes
  import opened PageTables
  import Pmm

  /** The page an address lies in; the processor ignores bits 48 to 63 of a canonical address. */
  function PageOf(virt: nat): (w: nat)
    ensures w < PAGES
  {
    virt / 4096 % PAGES
  }

  /** The four index fields of an address. */
  lemma IndexFields(virt: nat)
    ensures virt / 4096 % 512 == Index(PageOf(virt), 1)
    ensures virt / 0x20_0000 % 512 == Index(PageOf(virt), 2)
    ensures virt / 0x4000_0000 % 512 == Index(PageOf(virt), 3)
    ensures virt / 0x80_0000_0000 % 512 == Index(PageOf(virt), 4)
  {
    var v, w := virt / 4096, PageOf(virt);
    var h := v / 0x10_0000_0000;
    assert v == 0x10_0000_0000 * h + w;
    assert v / 512 == 0x800_0000 * h + w / 512;
    assert v / 512 / 512 == 0x4_0000 * h + w / 512 / 512;
    assert v / 512 / 512 / 512 == 512 * h + w / 512 / 512 / 512;
    assert virt / 0x20_0000 == v / 512;
    assert virt / 0x4000_0000 == v / 512 / 512;
    assert virt / 0x80_0000_0000 == v / 512 / 512 / 512;
    assert Prefix(w, 1) == w / 512 && Prefix(w, 2) == w / 512 / 512 && Prefix(w, 3) == w / 512 / 512 / 512;
  }

  /**
   * A mapped page keeps its translation and rights, an unmapped one stays unmapped. Tables added on the way
   * take no right away, except from user mode when they are added for a kernel page.
   */
  predicate SameTranslation(p: Path, q: Path, flags: nat) {
    if p.Mapped() then q == p
    else !q.Mapped() && q.level <= p.level && q.writable == p.writable && (User(flags) ==> q.user == p.user)
  }

  const NO_PAGE: int := -1

  /** Every translation but that of page `except` is as it was. */
  ghost predicate Preserved(mem: Memory, mem': Memory, root: nat, flags: nat, except: int) {
    forall x: nat :: x < PAGES && x != except ==> SameTranslation(Walk(mem, root, 4, x), Walk(mem', root, 4, x), flags)
  }

  lemma PreservedSelf(mem: Memory, root: nat, flags: nat)
    ensures Preserved(mem, mem, root, flags, NO_PAGE)
  {
    hide Walk;
  }

  lemma PreservedTransitive(m1: Memory, m2: Memory, m3: Memory, root: nat, flags: nat, except: int)
    requires Preserved(m1, m2, root, flags, NO_PAGE) && Preserved(m2, m3, root, flags, except)
    ensures Preserved(m1, m3, root, flags, except)
  {
    hide Walk, Present, User;
  }

  /** More tables in frames that were free; no other frame in use is written. */
  ghost predicate Extends(mem: Memory, tables: map<Node, nat>, free: set<nat>, mem': Memory, tables': map<Node, nat>,
                          free': set<nat>) {
    && |mem'| == |mem| && free' <= free
    && (forall n :: n in tables ==> n in tables' && tables'[n] == tables[n])
    && (forall n :: n in tables' ==> n in tables || (tables'[n] in free && tables'[n] !in free'))
    && (forall f: nat :: f < |mem| && f !in free && f !in tables.Values ==> mem'[f] == mem[f])
  }

  /** Every page but `w` is walked to as before. */
  ghost predicate OthersSame(mem: Memory, mem': Memory, root: nat, w: nat) {
    forall x: nat :: x < PAGES && x != w ==> Walk(mem', root, 4, x) == Walk(mem, root, 4, x)
  }

  lemma OthersPreserved(mem: Memory, mem': Memory, root: nat, flags: nat, w: nat)
    requires OthersSame(mem, mem', root, w)
    ensures Preserved(mem, mem', root, flags, w)
  {
    hide Walk;
  }

  lemma PreservedExcept(mem: Memory, mem': Memory, root: nat, flags: nat, w: nat)
    requires Preserved(mem, mem', root, flags, NO_PAGE)
    ensures Preserved(mem, mem', root, flags, w)
    ensures w < PAGES ==> SameTranslation(Walk(mem, root, 4, w), Walk(mem', root, 4, w), flags)
  {
    hide Walk;
  }

  lemma ExtendsSelf(mem: Memory, tables: map<Node, nat>, free: set<nat>)
    ensures Extends(mem, tables, free, mem, tables, free)
  {
  }

  lemma AttachExtends(mem: Memory, root: nat, tables: map<Node, nat>, w: nat, level: nat, f: nat, flags: nat,
                      free: set<nat>)
    requires CanAttach(mem, root, tables, w, level, f) && f in free && On(w, level - 1) !in tables
    requires forall n :: n in tables ==> tables[n] !in free
    ensures var mem' := Attach(mem, tables[On(w, level)], Index(w, level), f, flags);
            Extends(mem, tables, free, mem', tables[On(w, level - 1) := f], free - {f})
    ensures |tables[On(w, level - 1) := f]| == |tables| + 1
  {
    hide Tree, EntryOf, TableEntry, SetEntry, Present, On, Index;
  }

  lemma ExtendsTransitive(m1: Memory, t1: map<Node, nat>, f1: set<nat>, m2: Memory, t2: map<Node, nat>, f2: set<nat>,
                          m3: Memory, t3: map<Node, nat>, f3: set<nat>)
    requires Extends(m1, t1, f1, m2, t2, f2) && Extends(m2, t2, f2, m3, t3, f3)
    ensures Extends(m1, t1, f1, m3, t3, f3)
  {
    forall f: nat | f < |m1| && f !in f1 && f !in t1.Values ensures m3[f] == m1[f] {
      assert f !in t2.Values;
    }
  }

  class AddressSpace {
    /** Physical memory, as the direct map shows it. */
    var mem: Memory
    /** The frame of `current_pml4`. */
    const root: nat
    const pmm: Pmm.FrameAllocator
    /** The tables, by their place. */
    ghost var tables: map<Node, nat>

    /** `vmm_init` takes over the tables the boot loader built. */
    constructor (cr3: nat, memory: Memory, frames: Pmm.FrameAllocator, ghost inUse: map<Node, nat>)
      requires frames.Valid() && frames.totalPages <= |memory| && Tree(memory, cr3 / 4096, inUse)
      requires forall n :: n in inUse ==> inUse[n] !in frames.Free()
      ensures Valid() && mem == memory && root == cr3 / 4096 && pmm == frames && tables == inUse
    {
      mem, root, pmm, tables := memory, cr3 / 4096, frames, inUse;
    }

    /** The tables are a tree of distinct frames, and the frame allocator considers none of them free. */
    ghost predicate Valid()
      reads this, pmm, pmm.bitmap
    {
      && pmm.Valid() && pmm.totalPages <= |mem|
      && Tree(mem, root, tables) && (forall n :: n in tables ==> tables[n] !in pmm.Free())
    }

    /** What the processor finds for page `w`. */
    ghost function PathTo(w: nat): Path
      reads `mem
    {
      Walk(mem, root, 4, w)
    }

    /** No large page lies on the way to `w`. */
    ghost predicate NoLarge(w: nat)
      reads `mem
    {
      PathTo(w).Mapped() ==> PathTo(w).level == 1
    }

    /**
     * The table below `table` at `index`, created when absent. `page` is the page the walk is for, `level` the
     * level of `table`.
     */
    method NextTable(table: nat, index: nat, flags: nat, ghost page: nat,
                     ghost level: nat) returns (ok: bool, next: nat)
      requires Valid() && page < PAGES && 2 <= level <= 4 && NoLarge(page) && PathTo(page).level <= level
      requires On(page, level) in tables && table == tables[On(page, level)] && index == Index(page, level)
      modifies this`mem, this`tables, pmm`freeMemory, pmm.bitmap
      ensures Valid() && Extends(old(mem), old(tables), old(pmm.Free()), mem, tables, pmm.Free())
      ensures ok ==> On(page, level - 1) in tables && next == tables[On(page, level - 1)] && NoLarge(page)
      ensures ok <==> old(PathTo(page)).level < level || old(pmm.Free()) != {}
      ensures |pmm.Free()| + |tables| == old(|pmm.Free()| + |tables|)
      ensures var p := old(PathTo(page));
              if p.level == level && ok then
                PathTo(page) == Path(level - 1, 0, p.user && User(flags), p.writable)
                    && |pmm.Free()| == |old(pmm.Free())| - 1
              else mem == old(mem) && pmm.Free() == old(pmm.Free())
      ensures Preserved(old(mem), mem, root, flags, NO_PAGE)
    {
      hide Walk, EntryOf, Store, TableEntry, Attach, On, Index, Tree, Pmm.FrameAllocator.InUse;
      Reached(page, level);
      PreservedSelf(mem, root, flags);
      ghost var f0 := pmm.Free();
      if !Present(EntryOf(mem[table], index)) {
        var addr := pmm.AllocPage();
        if addr == 0 {
          return false, 0;
        }
        var f := addr / 4096;
        Attaches(page, level, f, flags, f0);
        mem := mem[f := ZeroFrame()];
        mem := Store(mem, table, index, TableEntry(f, flags));
        tables := tables[On(page, level - 1) := f];
      }
      ok, next := true, EntryOf(mem[table], index) / 4096;
    }

    /** The walk for `w` at a table on its way. */
    lemma Reached(w: nat, level: nat)
      requires Tree(mem, root, tables) && w < PAGES && 1 <= level <= 4 && On(w, level) in tables
      ensures tables[On(w, level)] < |mem|
      ensures var e := EntryOf(mem[tables[On(w, level)]], Index(w, level));
              if NamesTable(level, e) then PathTo(w).level < level && On(w, level - 1) in tables
                  && e / 4096 == tables[On(w, level - 1)]
              else PathTo(w).level == level && PathTo(w).entry == e
    {
      hide EntryOf, Large;
      OnRoot(w);
      WalkReaches(mem, root, tables, level, w, 4);
      WalkStep(mem, root, tables, level, w);
    }

    /** Entering an empty table in frame `f`. */
    lemma Attaches(w: nat, level: nat, f: nat, flags: nat, free: set<nat>)
      requires w < PAGES && CanAttach(mem, root, tables, w, level, f) && f in free
      requires forall n :: n in tables ==> tables[n] !in free
      ensures var t, i := tables[On(w, level)], Index(w, level);
              var mem', tables' := Attach(mem, t, i, f, flags), tables[On(w, level - 1) := f];
              && mem' == Store(mem[f := ZeroFrame()], t, i, TableEntry(f, flags))
              && Tree(mem', root, tables') && Extends(mem, tables, free, mem', tables', free - {f})
              && EntryOf(mem'[t], i) / 4096 == f && |tables'| == |tables| + 1
              && Walk(mem', root, 4, w) == Path(level - 1, 0, PathTo(w).user && User(flags), PathTo(w).writable)
              && Preserved(mem, mem', root, flags, NO_PAGE)
    {
      hide Walk, EntryOf, TableEntry, On, Index, Tree, Extends, Preserved, User, Present, Writable, Store;
      var t, i := tables[On(w, level)], Index(w, level);
      AttachTree(mem, root, tables, w, level, f, flags);
      NotThereYet(mem, root, tables, w, level, f);
      AttachExtends(mem, root, tables, w, level, f, flags, free);
      AttachedEntry(mem, t, i, f, flags, t, i);
      AttachesFor(w, level, f, flags, w);
      AttachPreserves(w, level, f, flags);
    }

    lemma AttachPreserves(w: nat, level: nat, f: nat, flags: nat)
      requires w < PAGES && CanAttach(mem, root, tables, w, level, f)
      ensures Preserved(mem, Attach(mem, tables[On(w, level)], Index(w, level), f, flags), root, flags, NO_PAGE)
    {
      hide Walk, EntryOf, Attach, On, Index, Tree, SameTranslation, Present;
      var mem' := Attach(mem, tables[On(w, level)], Index(w, level), f, flags);
      forall x: nat | x < PAGES ensures SameTranslation(Walk(mem, root, 4, x), Walk(mem', root, 4, x), flags) {
        AttachesFor(w, level, f, flags, x);
      }
    }

    lemma AttachesFor(w: nat, level: nat, f: nat, flags: nat, x: nat)
      requires w < PAGES && x < PAGES && CanAttach(mem, root, tables, w, level, f)
      ensures var q := Walk(Attach(mem, tables[On(w, level)], Index(w, level), f, flags), root, 4, x);
              && SameTranslation(PathTo(x), q, flags)
              && (x == w ==> q == Path(level - 1, 0, PathTo(w).user && User(flags), PathTo(w).writable))
    {
      assert tables[ROOT] == root;
      hide Tree, EntryOf, Attach, TableEntry, Walk, Prefix;
      OnRoot(x);
      if On(x, level - 1) == On(w, level - 1) {
        AttachWalk(mem, root, tables, w, level, f, flags, x, 4);
      } else {
        AttachWalkOther(mem, root, tables, w, level, f, flags, x);
      }
    }

    /**
     * `vmm_map_page`: inserts one translation. Tables on the way that are missing are taken from the frame
     * allocator; when it runs out, no translation changes. The page is open to user mode only as far as the
     * tables that existed before let it be: their entries are not upgraded.
     */
    method MapPage(phys: nat, virt: nat, flags: nat)
      requires Valid() && NoLarge(PageOf(virt)) && phys % 4096 == 0 && phys < 0x10_0000_0000_0000 && flags < 4096
      modifies this`mem, this`tables, pmm`freeMemory, pmm.bitmap
      ensures Valid() && Extends(old(mem), old(tables), old(pmm.Free()), mem, tables, pmm.Free())
      ensures |pmm.Free()| + |tables| == old(|pmm.Free()| + |tables|)
      ensures Preserved(old(mem), mem, root, flags, PageOf(virt))
      ensures var p := old(PathTo(PageOf(virt)));
              if |old(pmm.Free())| >= p.level - 1 then
                && PathTo(PageOf(virt)) == Path(1, LeafEntry(phys, flags), p.user && (p.level > 1 ==>
                   User(flags)), p.writable)
                && PathTo(PageOf(virt)).entry == phys + flags + (1 - flags % 2)
                && |pmm.Free()| == |old(pmm.Free())| - (p.level - 1)
              else
                && !p.Mapped() && !PathTo(PageOf(virt)).Mapped() && PathTo(PageOf(virt)).writable == p.writable
                && pmm.Free() == {}
    {
      hide Walk, EntryOf, Store, On, Index, Tree, Extends, LeafEntry, Pmm.FrameAllocator.InUse, Preserved, OthersSame;
      hide Present, User;
      ghost var w := PageOf(virt);
      ghost var m0, t0, f0 := mem, tables, pmm.Free();
      var ok, table := TablesFor(virt, flags);
      if !ok {
        PreservedExcept(m0, mem, root, flags, w);
        return;
      }
      IndexFields(virt);
      LeafEnters(w, LeafEntry(phys, flags));
      ghost var m3 := mem;
      mem := Store(mem, table, virt / 4096 % 512, LeafEntry(phys, flags));
      OthersPreserved(m3, mem, root, flags, w);
      PreservedTransitive(m0, m3, mem, root, flags, w);
      ExtendsTransitive(m0, t0, f0, m3, tables, pmm.Free(), mem, tables, pmm.Free());
    }

    /** The part of `vmm_map_page` that walks to the last table, creating what is missing. */
    method TablesFor(virt: nat, flags: nat) returns (ok: bool, table: nat)
      requires Valid() && NoLarge(PageOf(virt))
      modifies this`mem, this`tables, pmm`freeMemory, pmm.bitmap
      ensures Valid() && Extends(old(mem), old(tables), old(pmm.Free()), mem, tables, pmm.Free())
      ensures Preserved(old(mem), mem, root, flags, NO_PAGE)
      ensures ok <==> |old(pmm.Free())| >= old(PathTo(PageOf(virt))).level - 1
      ensures |pmm.Free()| + |tables| == old(|pmm.Free()| + |tables|)
      ensures ok ==> On(PageOf(virt), 1) in tables && table == tables[On(PageOf(virt), 1)]
      ensures var p := old(PathTo(PageOf(virt)));
              if ok then
                && PathTo(PageOf(virt)) == (if p.level > 1 then Path(1, 0, p.user && User(flags), p.writable) else p)
                && |pmm.Free()| == |old(pmm.Free())| - (p.level - 1)
              else !p.Mapped() && pmm.Free() == {}
    {
      hide Walk, EntryOf, On, Index, Tree, Extends, Preserved, Present, User, Pmm.FrameAllocator.InUse;
      ghost var w := PageOf(virt);
      IndexFields(virt);
      RootOf(w);
      ghost var m0, t0, f0 := mem, tables, pmm.Free();
      ok, table := NextTable(root, virt / 0x80_0000_0000 % 512, flags, w, 4);
      ghost var m1, t1, f1 := mem, tables, pmm.Free();
      if ok {
        ok, table := NextTable(table, virt / 0x4000_0000 % 512, flags, w, 3);
        ghost var m2, t2, f2 := mem, tables, pmm.Free();
        ExtendsTransitive(m0, t0, f0, m1, t1, f1, m2, t2, f2);
        PreservedTransitive(m0, m1, m2, root, flags, NO_PAGE);
        if ok {
          ok, table := NextTable(table, virt / 0x20_0000 % 512, flags, w, 2);
          ExtendsTransitive(m0, t0, f0, m2, t2, f2, mem, tables, pmm.Free());
          PreservedTransitive(m0, m2, mem, root, flags, NO_PAGE);
        }
      }
    }

    lemma RootOf(w: nat)
      requires Tree(mem, root, tables) && w < PAGES
      ensures On(w, 4) in tables && tables[On(w, 4)] == root && PathTo(w).level <= 4
    {
      OnRoot(w);
    }

    /** Writing the entry of a page whose tables are all there. */
    lemma LeafEnters(w: nat, e: nat)
      requires Tree(mem, root, tables) && w < PAGES && On(w, 1) in tables && e < TWO64
      ensures var t, i := tables[On(w, 1)], Index(w, 1);
              && t < |mem|
              && var mem' := Store(mem, t, i, e);
                 && Tree(mem', root, tables) && (forall free :: Extends(mem, tables, free, mem', tables, free))
                 && Walk(mem', root, 4, w) == PathTo(w).(level := 1, entry := e)
                 && OthersSame(mem, mem', root, w)
    {
      var t, i := tables[On(w, 1)], Index(w, 1);
      var mem' := Store(mem, t, i, e);
      LeafWrite(mem, root, tables, w, e);
      RootOf(w);
      LeafWriteSelf(mem, root, tables, w, e, 4);
      forall x: nat | x < PAGES && x != w ensures Walk(mem', root, 4, x) == PathTo(x) {
        LeafWriteOther(mem, root, tables, w, e, x);
      }
    }

    /** `vmm_is_mapped`: whether the page has a translation, 2 MB pages included. */
    method IsMapped(virt: nat) returns (mapped: bool)
      requires Valid() && !(PathTo(PageOf(virt)).Mapped() && PathTo(PageOf(virt)).level == 3)
      ensures mapped == PathTo(PageOf(virt)).Mapped()
    {
      hide EntryOf, On, Index, Tree, Walk, Pmm.FrameAllocator.InUse;
      ghost var w := PageOf(virt);
      IndexFields(virt);
      RootOf(w);
      Reached(w, 4);
      var e := EntryOf(mem[root], virt / 0x80_0000_0000 % 512);
      if !Present(e) {
        return false;
      }
      Reached(w, 3);
      e := EntryOf(mem[e / 4096], virt / 0x4000_0000 % 512);
      if !Present(e) {
        return false;
      }
      Reached(w, 2);
      e := EntryOf(mem[e / 4096], virt / 0x20_0000 % 512);
      if !Present(e) {
        return false;
      }
      if e / 128 % 2 == 1 {
        return true;
      }
      Reached(w, 1);
      e := EntryOf(mem[e / 4096], virt / 4096 % 512);
      return Present(e);
    }

    /** `vmm_unmap_page`: removes one translation. No table is given back. */
    method UnmapPage(virt: nat)
      requires Valid() && NoLarge(PageOf(virt))
      modifies this`mem
      ensures Valid() && !PathTo(PageOf(virt)).Mapped()
      ensures var p := old(PathTo(PageOf(virt)));
              PathTo(PageOf(virt)) == if p.level == 1 then p.(entry := 0) else p
      ensures OthersSame(old(mem), mem, root, PageOf(virt))
      ensures Extends(old(mem), tables, pmm.Free(), mem, tables, pmm.Free())
    {
      hide EntryOf, On, Index, Tree, Pmm.FrameAllocator.InUse, Walk, Store;
      ghost var w := PageOf(virt);
      IndexFields(virt);
      RootOf(w);
      Reached(w, 4);
      var e := EntryOf(mem[root], virt / 0x80_0000_0000 % 512);
      if !Present(e) {
        return;
      }
      Reached(w, 3);
      e := EntryOf(mem[e / 4096], virt / 0x4000_0000 % 512);
      if !Present(e) {
        return;
      }
      Reached(w, 2);
      e := EntryOf(mem[e / 4096], virt / 0x20_0000 % 512);
      if !Present(e) {
        return;
      }
      LeafEnters(w, 0);
      mem := Store(mem, e / 4096, virt / 4096 % 512, 0);
    }
  }
}
