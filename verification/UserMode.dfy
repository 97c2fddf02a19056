/** User address space of kernel/usermode.c: the window of pages given to programs, backed by tracked frames. */
module UserMode {
  import opened Bytes
  import opened PageTables
  import opened Paging
  import Pmm
  import Processes
  import Scheduling

  const USER_FIRST: nat := 0x400
  const USER_END: nat := 0x600
  const USER_FLAGS: nat := 7

  /** A `return 0`, a `return -1`, or a page fault inside the kernel, which halts it. */
  datatype Outcome = Done | Failed | Fault

  predicate InWindow(w: nat) { USER_FIRST <= w < USER_END }

  /** The mapped pages of the window and the frames behind them. */
  ghost function Window(mem: Memory, root: nat): (win: map<nat, nat>)
    ensures forall w :: w in win <==> InWindow(w) && Walk(mem, root, 4, w).Mapped()
    ensures forall w :: w in win ==> win[w] == Walk(mem, root, 4, w).entry / 4096
  {
    map w: nat | USER_FIRST <= w < USER_END && Walk(mem, root, 4, w).Mapped() :: Walk(mem, root, 4, w).entry / 4096
  }

  /** A window page is mapped writable and open to user mode, by a last-level entry. */
  ghost predicate Plain(p: Path) {
    p.Mapped() ==> p.level == 1 && p.writable && Writable(p.entry) && User(p.entry)
  }

  /** Distinct window pages lie in distinct frames, none of which is free or a page table. */
  ghost predicate Isolated(mem: Memory, root: nat, tables: map<Node, nat>, free: set<nat>) {
    var win := Window(mem, root);
    && (forall w: nat :: InWindow(w) ==> Plain(Walk(mem, root, 4, w)))
    && (forall w :: w in win ==> win[w] < |mem| && win[w] !in free && win[w] !in tables.Values)
    && (forall w, x :: w in win && x in win && win[w] == win[x] ==> w == x)
  }

  /** A write to a frame that holds no table leaves every walk as it is. */
  lemma DataWrite(mem: Memory, root: nat, tables: map<Node, nat>, f: nat, data: Frame)
    requires Tree(mem, root, tables) && f < |mem| && f !in tables.Values
    ensures Tree(mem[f := data], root, tables)
    ensures forall x: nat :: x < PAGES ==> Walk(mem[f := data], root, 4, x) == Walk(mem, root, 4, x)
  {
    hide EntryOf, NamesTable;
    var mem' := mem[f := data];
    forall n | n in tables ensures tables[n] != f {
    }
    forall n | n in tables && n.level < 4 ensures Linked(mem', tables, n) {
      assert Linked(mem, tables, n);
    }
    forall n, i | n in tables && 0 <= i < 512 ensures Closed(mem', tables, n, i) {
      assert Closed(mem, tables, n, i);
    }
    forall x: nat | x < PAGES ensures Walk(mem', root, 4, x) == Walk(mem, root, 4, x) {
      OnRoot(x);
      WalkSame(mem, mem', root, tables, 4, x);
    }
  }

  /** The window after one page was mapped to frame `f` and cleared. */
  lemma PageAdded(mem: Memory, root: nat, tables: map<Node, nat>, free: set<nat>, mem1: Memory,
                  tables1: map<Node, nat>, free1: set<nat>, w: nat, f: nat)
    requires Isolated(mem, root, tables, free + {f}) && InWindow(w) && w !in Window(mem, root) && f !in free
    requires f < |mem| && f !in tables.Values
    requires Tree(mem1, root, tables1) && Extends(mem, tables, free, mem1, tables1, free1)
    requires Preserved(mem, mem1, root, USER_FLAGS, w)
    requires var p := Walk(mem1, root, 4, w);
             p.Mapped() && Plain(p) && p.entry / 4096 == f && p.user == Walk(mem, root, 4, w).user
                 && p.writable == Walk(mem, root, 4, w).writable
    ensures var mem2 := mem1[f := ZeroFrame()];
            && Tree(mem2, root, tables1) && free1 <= free
            && Window(mem2, root) == Window(mem, root)[w := f] && Isolated(mem2, root, tables1, free1)
            && Kept(mem, Window(mem, root), mem2, Window(mem2, root)) && SameRights(mem, mem2, root)
            && Extends(mem, tables, free + {f}, mem2, tables1, free1) && Preserved(mem, mem2, root, USER_FLAGS, w)
  {
    hide Tree, Walk, Present, User, Writable, Preserved, Extends, Plain, Kept, SameRights;
    FrameOutside(mem, tables, free, mem1, tables1, free1, f);
    var mem2 := mem1[f := ZeroFrame()];
    DataWrite(mem1, root, tables1, f, ZeroFrame());
    WindowAdded(mem, mem1, mem2, root, w, f);
    KeptOutside(mem, root, tables, free, mem1, tables1, free1, w, f);
    WidenExtends(mem, tables, free, mem1, tables1, free1, f);
    WalksPreserved(mem, mem1, mem2, root, w);
  }

  lemma WidenExtends(mem: Memory, tables: map<Node, nat>, free: set<nat>, mem1: Memory, tables1: map<Node, nat>,
                     free1: set<nat>, f: nat)
    requires Extends(mem, tables, free, mem1, tables1, free1) && f < |mem|
    ensures Extends(mem, tables, free + {f}, mem1[f := ZeroFrame()], tables1, free1)
  {
  }

  lemma WalksPreserved(mem: Memory, mem1: Memory, mem2: Memory, root: nat, w: nat)
    requires Preserved(mem, mem1, root, USER_FLAGS, w)
    requires forall x: nat :: x < PAGES ==> Walk(mem2, root, 4, x) == Walk(mem1, root, 4, x)
    ensures Preserved(mem, mem2, root, USER_FLAGS, w)
  {
    hide Walk;
  }

  /** The frames behind the window are not among those written. */
  lemma KeptOutside(mem: Memory, root: nat, tables: map<Node, nat>, free: set<nat>, mem1: Memory,
                    tables1: map<Node, nat>, free1: set<nat>, w: nat, f: nat)
    requires Isolated(mem, root, tables, free + {f}) && w !in Window(mem, root) && f < |mem|
    requires Extends(mem, tables, free, mem1, tables1, free1)
    ensures var mem2 := mem1[f := ZeroFrame()];
            && free1 <= free
            && Kept(mem, Window(mem, root), mem2, Window(mem, root)[w := f])
            && forall x :: x in Window(mem, root) ==>
                 var f' := Window(mem, root)[x];
                 f' !in tables1.Values && f' !in free1 && f' != f
  {
    hide Walk, Plain;
    var win := Window(mem, root);
    var mem2 := mem1[f := ZeroFrame()];
    forall x | x in win ensures win[x] !in tables1.Values && win[x] != f && win[x] !in free1 && win[x] < |mem|
      && mem2[win[x]] == mem[win[x]] {
      FrameOutside(mem, tables, free, mem1, tables1, free1, win[x]);
    }
  }

  lemma FrameOutside(mem: Memory, tables: map<Node, nat>, free: set<nat>, mem1: Memory, tables1: map<Node, nat>,
                     free1: set<nat>, f: nat)
    requires Extends(mem, tables, free, mem1, tables1, free1) && f !in free && f !in tables.Values && f < |mem|
    ensures |mem1| == |mem| && f !in tables1.Values && f !in free1 && mem1[f] == mem[f]
  {
  }

  lemma WindowAdded(mem: Memory, mem1: Memory, mem2: Memory, root: nat, w: nat, f: nat)
    requires InWindow(w) && w !in Window(mem, root)
    requires forall x: nat :: InWindow(x) ==> Plain(Walk(mem, root, 4, x))
    requires forall x: nat :: x < PAGES ==> Walk(mem2, root, 4, x) == Walk(mem1, root, 4, x)
    requires Preserved(mem, mem1, root, USER_FLAGS, w)
    requires var p := Walk(mem1, root, 4, w);
             p.Mapped() && Plain(p) && p.entry / 4096 == f && p.user == Walk(mem, root, 4, w).user
                 && p.writable == Walk(mem, root, 4, w).writable
    ensures Window(mem2, root) == Window(mem, root)[w := f] && SameRights(mem, mem2, root)
    ensures forall x: nat :: InWindow(x) ==> Plain(Walk(mem2, root, 4, x))
  {
    hide Walk, Present, User, Writable;
    UserFlags();
  }

  lemma UserFlags()
    ensures User(USER_FLAGS) && Writable(USER_FLAGS)
  {
  }

  /** The running process, and the frames recorded for it. */
  ghost predicate Owner(sched: Processes.Scheduler)
    reads sched, sched.processes
  {
    sched.Sized() && Scheduling.Inv(sched.Now()) && sched.processes[sched.current].status.Running?
  }

  function Recorded(frames: seq<nat>, f: nat): seq<nat> {
    if |frames| < Processes.MAX_ALLOCATIONS then frames + [f] else frames
  }

  ghost predicate Ready(vm: AddressSpace, sched: Processes.Scheduler)
    reads vm, vm.pmm, vm.pmm.bitmap, sched, sched.processes, sched.allocations
  {
    && vm.Valid() && Isolated(vm.mem, vm.root, vm.tables, vm.pmm.Free())
    && Owner(sched) && sched.FramesHeld(sched.allocations[sched.current], vm.pmm)
  }

  /** The rights of the tables towards the window stay as they were. */
  ghost predicate SameRights(mem: Memory, mem': Memory, root: nat) {
    forall x: nat :: InWindow(x) ==>
      Walk(mem', root, 4, x).user == Walk(mem, root, 4, x).user
          && Walk(mem', root, 4, x).writable == Walk(mem, root, 4, x).writable
  }

  /** The pages of `win` keep their frames and contents. */
  ghost predicate Kept(mem: Memory, win: map<nat, nat>, mem': Memory, win': map<nat, nat>) {
    forall x :: x in win ==>
      && x in win' && win'[x] == win[x] && win[x] < |mem| && win[x] < |mem'|
      && mem'[win[x]] == mem[win[x]]
  }

  /**
   * One round of the loop of `usermode_map_range`, for an unmapped page: a frame is taken, recorded, mapped and
   * cleared. When the frame is the last one and tables are missing, the failure goes unnoticed and the clearing
   * faults.
   */
  method MapUserPage(vm: AddressSpace, sched: Processes.Scheduler, v: nat) returns (outcome: Outcome)
    requires Ready(vm, sched) && v % 4096 == 0 && InWindow(v / 4096) && v / 4096 !in Window(vm.mem, vm.root)
    modifies vm`mem, vm`tables, vm.pmm`freeMemory, vm.pmm.bitmap, sched.allocations
    ensures outcome.Failed? <==> old(vm.pmm.Free()) == {}
    ensures outcome.Fault? <==>
              var p := old(vm.PathTo(v / 4096));
              old(vm.pmm.Free()) != {} && (|old(vm.pmm.Free())| < p.level || !p.writable)
    ensures outcome.Failed? ==>
            Ready(vm, sched) && vm.mem == old(vm.mem) && vm.tables == old(vm.tables) && vm.pmm.Free() == {}
    ensures outcome.Failed? ==> sched.allocations[sched.current] == old(sched.allocations[sched.current])
    ensures outcome.Done? ==>
              var win, win' := old(Window(vm.mem, vm.root)), Window(vm.mem, vm.root);
              && Ready(vm, sched) && v / 4096 in win' && win' == win[v / 4096 := win'[v / 4096]]
              && Kept(old(vm.mem), win, vm.mem, win') && SameRights(old(vm.mem), vm.mem, vm.root)
              && vm.mem[win'[v / 4096]] == ZeroFrame()
              && sched.allocations[sched.current] == Recorded(old(sched.allocations[sched.current]), win'[v / 4096])
              && |vm.pmm.Free()| + |vm.tables| + 1 == old(|vm.pmm.Free()| + |vm.tables|)
              && |vm.pmm.Free()| == |old(vm.pmm.Free())| - old(vm.PathTo(v / 4096)).level
              && win'[v / 4096] in old(vm.pmm.Free())
              && Extends(old(vm.mem), old(vm.tables), old(vm.pmm.Free()), vm.mem, vm.tables, vm.pmm.Free())
              && Preserved(old(vm.mem), vm.mem, vm.root, USER_FLAGS, v / 4096)
  {
    hide Walk, Tree, Extends, Preserved, Window, Isolated, Scheduling.Inv, Recorded, Kept, SameRights;
    hide Pmm.FrameAllocator.InUse, Pmm.FrameAllocator.Valid;
    ghost var f0 := vm.pmm.Free();
    var addr := TakeTracked(vm.pmm, sched);
    if addr == 0 {
      assert vm.pmm.Free() == f0;
      return Failed;
    }
    assert vm.pmm.Free() + {addr / 4096} == f0;
    ghost var frames := sched.allocations[sched.current];
    outcome := BackPage(vm, v, addr);
    assert (sched.allocations as object) != (vm.pmm.bitmap as object);
    assert sched.allocations[sched.current] == frames;
  }

  /** A frame is taken and recorded for the running process. */
  method TakeTracked(pmm: Pmm.FrameAllocator, sched: Processes.Scheduler) returns (addr: nat)
    requires pmm.Valid() && Owner(sched) && sched.FramesHeld(sched.allocations[sched.current], pmm)
    modifies pmm`freeMemory, pmm.bitmap, sched.allocations
    ensures pmm.Valid() && Owner(sched) && sched.FramesHeld(sched.allocations[sched.current], pmm)
    ensures addr == 0 <==> old(pmm.Free()) == {}
    ensures addr == 0 ==> pmm.Free() == {} && sched.allocations[sched.current] == old(sched.allocations[sched.current])
    ensures addr != 0 ==>
              && addr % 4096 == 0 && addr / 4096 in old(pmm.Free()) && pmm.Free() == old(pmm.Free()) - {addr / 4096}
              && addr / 4096 < Pmm.FRAMES
              && sched.allocations[sched.current] == Recorded(old(sched.allocations[sched.current]), addr / 4096)
  {
    hide Scheduling.Inv, Pmm.FrameAllocator.InUse;
    addr := pmm.AllocPage();
    if addr != 0 {
      sched.Track(sched.CurrentPid(), addr / 4096);
    }
  }

  /** The taken frame is mapped at `v` and cleared through the mapping. */
  method BackPage(vm: AddressSpace, v: nat, addr: nat) returns (outcome: Outcome)
    requires vm.Valid() && addr % 4096 == 0 && addr / 4096 < vm.pmm.totalPages && addr / 4096 !in vm.pmm.Free()
    requires Isolated(vm.mem, vm.root, vm.tables, vm.pmm.Free() + {addr / 4096}) && addr / 4096 !in vm.tables.Values
    requires v % 4096 == 0 && InWindow(v / 4096) && v / 4096 !in Window(vm.mem, vm.root)
    modifies vm`mem, vm`tables, vm.pmm`freeMemory, vm.pmm.bitmap
    ensures !outcome.Failed?
    ensures outcome.Fault? <==>
              var p := old(vm.PathTo(v / 4096));
              |old(vm.pmm.Free())| < p.level - 1 || !p.writable
    ensures outcome.Done? ==>
              var win, win' := old(Window(vm.mem, vm.root)), Window(vm.mem, vm.root);
              && vm.Valid() && Isolated(vm.mem, vm.root, vm.tables, vm.pmm.Free())
              && win' == win[v / 4096 := addr / 4096] && vm.pmm.Free() <= old(vm.pmm.Free())
              && Kept(old(vm.mem), win, vm.mem, win') && SameRights(old(vm.mem), vm.mem, vm.root)
              && vm.mem[addr / 4096] == ZeroFrame()
              && |vm.pmm.Free()| + |vm.tables| == old(|vm.pmm.Free()| + |vm.tables|)
              && |vm.pmm.Free()| == |old(vm.pmm.Free())| - (old(vm.PathTo(v / 4096)).level - 1)
              && Extends(old(vm.mem), old(vm.tables), old(vm.pmm.Free()) + {addr / 4096}, vm.mem, vm.tables,
                 vm.pmm.Free())
              && Preserved(old(vm.mem), vm.mem, vm.root, USER_FLAGS, v / 4096)
  {
    hide Walk, Tree, Extends, Window, Isolated, Kept, SameRights, Present, User, Writable, LeafEntry, Preserved;
    hide Pmm.FrameAllocator.InUse;
    UserFlags();
    ghost var w, f := v / 4096, addr / 4096;
    assert PageOf(v) == w;
    ghost var m0, t0, f0 := vm.mem, vm.tables, vm.pmm.Free();
    vm.MapPage(addr, v, USER_FLAGS);
    var p := Walk(vm.mem, vm.root, 4, v / 4096);
    if !p.Mapped() || !p.writable || !Writable(p.entry) {
      return Fault;
    }
    assert p.entry == LeafEntry(addr, USER_FLAGS);
    ghost var m1 := vm.mem;
    PageAdded(m0, vm.root, t0, f0, m1, vm.tables, vm.pmm.Free(), w, f);
    vm.mem := vm.mem[p.entry / 4096 := ZeroFrame()];
    outcome := Done;
  }

  /** The pages from `lo` up to `hi` joined the window, cleared; those that were there already kept their contents. */
  ghost predicate Added(mem: Memory, win: map<nat, nat>, mem': Memory, win': map<nat, nat>, lo: nat, hi: nat) {
    && Kept(mem, win, mem', win')
    && (forall x :: x in win' <==> x in win || lo <= x < hi)
    && (forall x :: x in win' && x !in win ==> win'[x] < |mem'| && mem'[win'[x]] == ZeroFrame())
  }

  /** The frames recorded for the process are the first 128 behind the window. */
  ghost predicate Tracked(frames: seq<nat>, win: map<nat, nat>) {
    && |frames| == (if |win| < Processes.MAX_ALLOCATIONS then |win| else Processes.MAX_ALLOCATIONS)
    && forall k :: 0 <= k < |frames| ==> frames[k] in win.Values
  }

  lemma TrackedNext(frames: seq<nat>, win: map<nat, nat>, w: nat, f: nat)
    requires Tracked(frames, win) && w !in win
    ensures Tracked(Recorded(frames, f), win[w := f])
  {
    var win' := win[w := f];
    assert win'.Keys == win.Keys + {w};
    assert win'[w] == f;
    forall g | g in win.Values ensures g in win'.Values {
      var x :| x in win && win[x] == g;
      assert win'[x] == g;
    }
  }

  /** What user mapping works on, as a value. */
  datatype Snapshot = Snapshot(mem: Memory, root: nat, tables: map<Node, nat>, free: set<nat>, frames: seq<nat>) {
    ghost function Win(): map<nat, nat> { Window(mem, root) }
  }

  ghost function Now(vm: AddressSpace, sched: Processes.Scheduler): Snapshot
    reads vm, vm.pmm, vm.pmm.bitmap, sched, sched.allocations
  {
    Snapshot(vm.mem, vm.root, vm.tables,
             if vm.pmm.Ready() then vm.pmm.Free() else {},
             if sched.current < sched.allocations.Length then sched.allocations[sched.current] else [])
  }

  /** Frame `f` is in use, but not for the window or a page table. */
  ghost predicate Elsewhere(s: Snapshot, f: nat) {
    f < |s.mem| && f !in s.free && f !in s.tables.Values && f !in s.Win().Values
  }

  /** The window and the tables grow into free frames only; memory and translations elsewhere stay. */
  ghost predicate Confined(s: Snapshot, s': Snapshot) {
    && s'.root == s.root && |s'.mem| == |s.mem| && s'.free <= s.free
    && (forall g :: g in s'.tables.Values ==> g in s.tables.Values || g in s.free)
    && (forall g :: g in s'.Win().Values ==> g in s.Win().Values || g in s.free)
    && (forall f: nat :: Elsewhere(s, f) ==> s'.mem[f] == s.mem[f])
    && OutsideSame(s.mem, s'.mem, s.root)
  }

  /** Every translation outside the window is as it was. */
  ghost predicate OutsideSame(mem: Memory, mem': Memory, root: nat) {
    forall x: nat :: x < PAGES && !InWindow(x) ==>
      SameTranslation(Walk(mem, root, 4, x), Walk(mem', root, 4, x), USER_FLAGS)
  }

  lemma ConfinedSelf(s: Snapshot)
    ensures Confined(s, s)
  {
    hide Walk, Window;
  }

  lemma OutsideTransitive(m0: Memory, m1: Memory, m2: Memory, root: nat)
    requires OutsideSame(m0, m1, root) && OutsideSame(m1, m2, root)
    ensures OutsideSame(m0, m2, root)
  {
    hide Walk, Present, User;
  }

  lemma ConfinedTransitive(s0: Snapshot, s1: Snapshot, s2: Snapshot)
    requires Confined(s0, s1) && Confined(s1, s2)
    ensures Confined(s0, s2)
  {
    hide OutsideSame, Window;
    OutsideTransitive(s0.mem, s1.mem, s2.mem, s0.root);
    forall f: nat | Elsewhere(s0, f) ensures s2.mem[f] == s0.mem[f] {
      assert Elsewhere(s1, f);
    }
  }

  lemma ConfinedPage(s: Snapshot, s': Snapshot, w: nat, f: nat)
    requires s'.root == s.root && InWindow(w) && w !in s.Win() && s'.Win() == s.Win()[w := f] && f in s.free
    requires Extends(s.mem, s.tables, s.free, s'.mem, s'.tables, s'.free)
    requires Preserved(s.mem, s'.mem, s.root, USER_FLAGS, w)
    ensures Confined(s, s')
  {
    hide Window, Walk, SameTranslation;
  }

  /** Every frame taken is behind the window or a page table, and recorded as far as there is room. */
  ghost predicate Accounted(s: Snapshot, s': Snapshot) {
    && Confined(s, s')
    && |s'.free| + |s'.tables| + |s'.Win()| == |s.free| + |s.tables| + |s.Win()|
    && (Tracked(s.frames, s.Win()) ==> Tracked(s'.frames, s'.Win()))
  }

  /** From `s` to `s'` the window gained the pages from `lo` up to `hi`. */
  ghost predicate Progress(s: Snapshot, s': Snapshot, lo: nat, hi: nat) {
    && SameRights(s.mem, s'.mem, s.root)
    && Added(s.mem, s.Win(), s'.mem, s'.Win(), lo, hi)
    && Accounted(s, s')
  }

  lemma NoProgress(s: Snapshot, lo: nat)
    requires Isolated(s.mem, s.root, s.tables, s.free)
    ensures Progress(s, s, lo, lo)
    ensures lo in s.Win() ==> Progress(s, s, lo, lo + 1)
  {
    hide Walk, Tracked, Confined;
    ConfinedSelf(s);
  }

  lemma Progressed(s: Snapshot, s': Snapshot, lo: nat, hi: nat)
    requires Progress(s, s', lo, hi)
    ensures Accounted(s, s')
  {
  }

  lemma AddedTransitive(m0: Memory, win0: map<nat, nat>, m1: Memory, win1: map<nat, nat>, m2: Memory,
                        win2: map<nat, nat>, lo: nat, mid: nat, hi: nat)
    requires lo <= mid <= hi && Added(m0, win0, m1, win1, lo, mid) && Added(m1, win1, m2, win2, mid, hi)
    ensures Added(m0, win0, m2, win2, lo, hi)
  {
    hide ZeroFrame;
    assert Kept(m0, win0, m2, win2);
    forall x | x in win2 && x !in win0 ensures win2[x] < |m2| && m2[win2[x]] == ZeroFrame() {
      if x in win1 {
        assert m1[win1[x]] == ZeroFrame();
      }
    }
  }

  lemma SameRightsTransitive(m0: Memory, m1: Memory, m2: Memory, root: nat)
    requires SameRights(m0, m1, root) && SameRights(m1, m2, root)
    ensures SameRights(m0, m2, root)
  {
    hide Walk;
  }

  lemma ProgressTransitive(s0: Snapshot, s1: Snapshot, s2: Snapshot, lo: nat, mid: nat, hi: nat)
    requires lo <= mid <= hi && Progress(s0, s1, lo, mid) && Progress(s1, s2, mid, hi)
    ensures Progress(s0, s2, lo, hi)
  {
    assert s1.root == s0.root;
    hide Tracked, Window, Added, SameRights, Confined;
    ConfinedTransitive(s0, s1, s2);
    AddedTransitive(s0.mem, s0.Win(), s1.mem, s1.Win(), s2.mem, s2.Win(), lo, mid, hi);
    SameRightsTransitive(s0.mem, s1.mem, s2.mem, s0.root);
  }

  lemma AddedOne(mem: Memory, win: map<nat, nat>, mem': Memory, w: nat, f: nat)
    requires w !in win && Kept(mem, win, mem', win[w := f]) && f < |mem'| && mem'[f] == ZeroFrame()
    ensures Added(mem, win, mem', win[w := f], w, w + 1) && |win[w := f]| == |win| + 1
  {
    hide Kept, ZeroFrame;
    assert win[w := f].Keys == win.Keys + {w};
  }

  lemma OnePage(s: Snapshot, s': Snapshot, w: nat, f: nat)
    requires s'.root == s.root && SameRights(s.mem, s'.mem, s.root) && InWindow(w) && w !in s.Win()
    requires s'.Win() == s.Win()[w := f]
    requires Kept(s.mem, s.Win(), s'.mem, s'.Win()) && f < |s'.mem| && s'.mem[f] == ZeroFrame()
    requires s'.frames == Recorded(s.frames, f) && |s'.free| + |s'.tables| + 1 == |s.free| + |s.tables|
    requires Confined(s, s')
    ensures Progress(s, s', w, w + 1)
  {
    hide Window, Tracked, Recorded, Added, SameRights, Kept, Confined;
    AddedOne(s.mem, s.Win(), s'.mem, w, f);
    if Tracked(s.frames, s.Win()) {
      TrackedNext(s.frames, s.Win(), w, f);
    }
  }

  /** How mapping page `w` ends: the tables it lacks come from the free frames too, and their lack is not noticed. */
  ghost function PageOutcome(s: Snapshot, w: nat): Outcome {
    var p := Walk(s.mem, s.root, 4, w);
    if p.Mapped() then Done else if s.free == {} then Failed else if |s.free| < p.level
        || !p.writable then Fault else Done
  }

  /** Page `w` cost its frame and the tables it lacked. */
  ghost predicate Spent(s: Snapshot, s': Snapshot, w: nat) {
    var p := Walk(s.mem, s.root, 4, w);
    p.writable && |s'.free| + p.level == |s.free| && Walk(s'.mem, s'.root, 4, w).level == 1
  }

  /** One round of the loop of `usermode_map_range`; a page that is mapped already is passed over. */
  method MapRound(vm: AddressSpace, sched: Processes.Scheduler, v: nat) returns (outcome: Outcome)
    requires Ready(vm, sched) && v % 4096 == 0 && InWindow(v / 4096)
    modifies vm`mem, vm`tables, vm.pmm`freeMemory, vm.pmm.bitmap, sched.allocations
    ensures outcome == PageOutcome(old(Now(vm, sched)), v / 4096)
    ensures v / 4096 in old(Now(vm, sched)).Win() ==> Now(vm, sched) == old(Now(vm, sched))
    ensures outcome.Done? && v / 4096 !in old(Now(vm, sched)).Win() ==>
            Spent(old(Now(vm, sched)), Now(vm, sched), v / 4096)
    ensures outcome.Failed? ==> Ready(vm, sched) && vm.pmm.Free() == {} && Now(vm, sched) == old(Now(vm, sched))
    ensures outcome.Done? ==> Ready(vm, sched) && Progress(old(Now(vm, sched)), Now(vm, sched), v / 4096, v / 4096 + 1)
  {
    hide Walk, Tree, Window, Kept, SameRights, Progress, Recorded, Extends, Preserved, Confined, Isolated, Present;
    hide Scheduling.Inv, Pmm.FrameAllocator.InUse;
    ghost var s, w := Now(vm, sched), v / 4096;
    assert PageOf(v) == w;
    PlainPage(s, w);
    var mapped := vm.IsMapped(v);
    if mapped {
      NoProgress(s, w);
      return Done;
    }
    outcome := MapUserPage(vm, sched, v);
    if outcome.Done? {
      PlainPage(Now(vm, sched), w);
      ConfinedPage(s, Now(vm, sched), w, Window(vm.mem, vm.root)[w]);
      OnePage(s, Now(vm, sched), w, Window(vm.mem, vm.root)[w]);
    }
  }

  lemma StillReady(vm: AddressSpace, sched: Processes.Scheduler, lo: nat)
    requires Ready(vm, sched)
    ensures Progress(Now(vm, sched), Now(vm, sched), lo, lo)
  {
    hide Progress, Isolated;
    NoProgress(Now(vm, sched), lo);
  }

  lemma PlainPage(s: Snapshot, w: nat)
    requires Isolated(s.mem, s.root, s.tables, s.free) && InWindow(w)
    ensures w in s.Win() <==> Walk(s.mem, s.root, 4, w).Mapped()
    ensures Walk(s.mem, s.root, 4, w).Mapped() ==> Walk(s.mem, s.root, 4, w).level == 1
  {
    hide Walk;
  }

  // How mapping a range ends.

  /** The pages of a range that are not in the window yet. */
  ghost function Missing(win: map<nat, nat>, lo: nat, hi: nat): set<nat> {
    set w | lo <= w < hi && w !in win
  }

  ghost function WindowPath(s: Snapshot): Path { Walk(s.mem, s.root, 4, USER_FIRST) }

  /** How mapping a range ends. The whole window lies under one last-level table, whose tables are created once. */
  ghost function RangeOutcome(s: Snapshot, lo: nat, hi: nat): Outcome {
    var n, p := |Missing(s.Win(), lo, hi)|, WindowPath(s);
    if n == 0 then Done
    else if s.free == {} then Failed
    else if |s.free| < p.level || !p.writable then Fault
    else if |s.free| < n + (p.level - 1) then Failed
    else Done
  }

  /** What `n` new pages have cost since `s0`. */
  ghost predicate Budget(s0: Snapshot, s: Snapshot, n: nat) {
    if n == 0 then s == s0
    else
      var p := WindowPath(s0);
      p.writable && |s.free| + n + (p.level - 1) == |s0.free| && WindowPath(s).level == 1 && WindowPath(s).writable
  }

  lemma {:induction false} WalkSibling(mem: Memory, frame: nat, level: nat, w: nat, x: nat)
    requires level >= 1 && On(w, 1) == On(x, 1)
    ensures var p, q := Walk(mem, frame, level, w), Walk(mem, frame, level, x);
            p.level == q.level && p.user == q.user && p.writable == q.writable && (p.level >= 2 ==> p == q)
    decreases level
  {
    hide EntryOf, NamesTable;
    if frame < |mem| && level >= 2 {
      PrefixSame(w, x, level - 1);
      var e := EntryOf(mem[frame], Index(w, level));
      if NamesTable(level, e) {
        WalkSibling(mem, e / 4096, level - 1, w, x);
      }
    } else {
      NoTableBelow(level);
    }
  }

  lemma NoTableBelow(level: nat)
    requires level >= 1
    ensures level == 1 ==> forall e: nat :: !NamesTable(level, e)
  {
  }

  lemma {:induction false} PrefixSame(w: nat, x: nat, level: nat)
    requires level >= 1 && Prefix(w, 1) == Prefix(x, 1)
    ensures Prefix(w, level) == Prefix(x, level)
  {
    if level > 1 {
      PrefixSame(w, x, level - 1);
    }
  }

  /** All pages of the window are reached through the same tables. */
  lemma WindowPaths(s: Snapshot, w: nat)
    requires InWindow(w)
    ensures var p, q := Walk(s.mem, s.root, 4, w), WindowPath(s);
            p.level == q.level && p.writable == q.writable
  {
    assert Prefix(w, 1) == Prefix(w, 0) / 512 == 2;
    assert Prefix(USER_FIRST, 1) == Prefix(USER_FIRST, 0) / 512 == 2;
    hide Walk;
    WalkSibling(s.mem, s.root, 4, w, USER_FIRST);
  }

  lemma MissingNext(win: map<nat, nat>, lo: nat, w: nat)
    requires lo <= w
    ensures |Missing(win, lo, w + 1)| == |Missing(win, lo, w)| + if w in win then 0 else 1
  {
    if w in win {
      assert Missing(win, lo, w + 1) == Missing(win, lo, w);
    } else {
      assert Missing(win, lo, w + 1) == Missing(win, lo, w) + {w};
    }
  }

  lemma {:induction false} MissingGrows(win: map<nat, nat>, lo: nat, w: nat, hi: nat)
    requires lo <= w <= hi
    ensures |Missing(win, lo, w)| <= |Missing(win, lo, hi)|
    decreases hi
  {
    hide Missing;
    if w < hi {
      MissingGrows(win, lo, w, hi - 1);
      MissingNext(win, lo, hi - 1);
    }
  }

  lemma BudgetStart(s: Snapshot, lo: nat)
    ensures Budget(s, s, |Missing(s.Win(), lo, lo)|)
  {
    hide Walk, Window;
    assert Missing(s.Win(), lo, lo) == {};
  }

  /** Progress up to `w` leaves it open whether `w` is in the window. */
  lemma NotReached(s0: Snapshot, s: Snapshot, lo: nat, w: nat)
    requires Progress(s0, s, lo, w)
    ensures w in s.Win() <==> w in s0.Win()
    ensures w in s.Win() <==> InWindow(w) && Walk(s.mem, s.root, 4, w).Mapped()
  {
    hide Walk;
  }

  /** A page that fails decides the range. */
  lemma RangeStops(s0: Snapshot, s: Snapshot, lo: nat, w: nat, hi: nat)
    requires lo <= w < hi && InWindow(w) && Budget(s0, s, |Missing(s0.Win(), lo, w)|) && Progress(s0, s, lo, w)
    requires !PageOutcome(s, w).Done?
    ensures PageOutcome(s, w) == RangeOutcome(s0, lo, hi)
  {
    hide Walk, Window, Missing, Progress, Present;
    NotReached(s0, s, lo, w);
    WindowPaths(s, w);
    MissingNext(s0.Win(), lo, w);
    MissingGrows(s0.Win(), lo, w + 1, hi);
    assert s.free == {} <==> |s.free| == 0;
  }

  /** A page that is mapped spends its share. */
  lemma RangeGoesOn(s0: Snapshot, s: Snapshot, s': Snapshot, lo: nat, w: nat)
    requires lo <= w && InWindow(w) && Budget(s0, s, |Missing(s0.Win(), lo, w)|) && Progress(s0, s, lo, w)
    requires s'.root == s.root
    requires if w in s.Win() then s' == s else Spent(s, s', w) && SameRights(s.mem, s'.mem, s.root)
    ensures Budget(s0, s', |Missing(s0.Win(), lo, w + 1)|)
  {
    hide Walk, Window, Missing, Progress;
    NotReached(s0, s, lo, w);
    if w !in s.Win() {
      assert WindowPath(s').writable == WindowPath(s).writable;
    }
    hide SameRights;
    MissingNext(s0.Win(), lo, w);
    WindowPaths(s, w);
    WindowPaths(s', w);
  }

  lemma RangeEnds(s0: Snapshot, s: Snapshot, lo: nat, hi: nat)
    requires Budget(s0, s, |Missing(s0.Win(), lo, hi)|)
    ensures RangeOutcome(s0, lo, hi) == Done
  {
    hide Walk, Window, Missing;
    var n := |Missing(s0.Win(), lo, hi)|;
    assert n > 0 ==> s0.free != {};
  }

  lemma ProgressFacts(s: Snapshot, s': Snapshot, lo: nat, hi: nat)
    requires Progress(s, s', lo, hi)
    ensures s'.root == s.root && SameRights(s.mem, s'.mem, s.root)
  {
  }

  /** What decides how mapping ends: frames, the depth and rights of the tables, and the pages there are. */
  datatype Tally = Tally(free: int, level: nat, writable: bool, pages: set<nat>)

  ghost function TallyOf(s: Snapshot): Tally {
    Tally(|s.free|, WindowPath(s).level, WindowPath(s).writable, s.Win().Keys)
  }

  /** The pages from `lo` up to `hi` that `pages` lacks. */
  ghost function Absent(pages: set<nat>, lo: nat, hi: nat): set<nat> { set w | lo <= w < hi && w !in pages }

  /** How mapping the pages from `lo` up to `hi` ends. */
  ghost function TallyOutcome(t: Tally, lo: nat, hi: nat): Outcome {
    var n := |Absent(t.pages, lo, hi)|;
    if n == 0 then Done
    else if t.free == 0 then Failed
    else if t.free < t.level || !t.writable then Fault
    else if t.free < n + (t.level - 1) then Failed
    else Done
  }

  /** What is left when it is done. */
  ghost function Charged(t: Tally, lo: nat, hi: nat): Tally {
    var n := |Absent(t.pages, lo, hi)|;
    if n == 0 then t
    else Tally(t.free - n - (t.level - 1), 1, t.writable, t.pages + Absent(t.pages, lo, hi))
  }

  lemma RangeTally(s: Snapshot, lo: nat, hi: nat)
    ensures RangeOutcome(s, lo, hi) == TallyOutcome(TallyOf(s), lo, hi)
  {
    hide Walk, Window;
    assert Absent(s.Win().Keys, lo, hi) == Missing(s.Win(), lo, hi);
    assert s.free == {} <==> |s.free| == 0;
  }

  lemma PagesAdded(s: Snapshot, s': Snapshot, lo: nat, hi: nat)
    requires Progress(s, s', lo, hi)
    ensures Absent(s.Win().Keys, lo, hi) == Missing(s.Win(), lo, hi)
    ensures s'.Win().Keys == s.Win().Keys + Absent(s.Win().Keys, lo, hi)
  {
    hide Walk, Window, SameRights, Accounted, Kept;
  }

  lemma RangeCharged(s: Snapshot, s': Snapshot, lo: nat, hi: nat)
    requires Budget(s, s', |Missing(s.Win(), lo, hi)|) && Progress(s, s', lo, hi)
    ensures TallyOf(s') == Charged(TallyOf(s), lo, hi)
  {
    hide Walk, Window, Progress, Absent, Missing;
    PagesAdded(s, s', lo, hi);
  }

  /**
   * `usermode_map_range` inside the window: the pages the range touches are mapped to cleared frames of their own,
   * except those that were mapped before. How it ends is decided by the free frames.
   */
  method MapRange(vm: AddressSpace, sched: Processes.Scheduler, virtStart: nat, size: nat) returns (outcome: Outcome)
    requires Ready(vm, sched) && 0x40_0000 <= virtStart && virtStart + size <= 0x60_0000
    modifies vm`mem, vm`tables, vm.pmm`freeMemory, vm.pmm.bitmap, sched.allocations
    ensures outcome == TallyOutcome(TallyOf(old(Now(vm, sched))), virtStart / 4096, (virtStart + size + 4095) / 4096)
    ensures outcome.Done? ==>
              TallyOf(Now(vm, sched)) ==
              Charged(TallyOf(old(Now(vm, sched))), virtStart / 4096, (virtStart + size + 4095) / 4096)
    ensures outcome.Failed? ==>
            Ready(vm, sched) && vm.pmm.Free() == {} && Accounted(old(Now(vm, sched)), Now(vm, sched))
    ensures outcome.Done? ==>
              Ready(vm, sched) && Progress(old(Now(vm, sched)), Now(vm, sched), virtStart / 4096,
                  (virtStart + size + 4095) / 4096)
  {
    hide Ready, Now, Progress, Accounted, RangeOutcome, Budget, Missing, Window, TallyOutcome, TallyOf, Charged;
    hide Pmm.FrameAllocator.InUse;
    var v := virtStart / 4096 * 4096;
    var end := (virtStart + size + 4095) / 4096 * 4096;
    ghost var s, lo, hi := Now(vm, sched), virtStart / 4096, (virtStart + size + 4095) / 4096;
    StillReady(vm, sched, lo);
    BudgetStart(s, lo);
    RangeTally(s, lo, hi);
    while v < end
      invariant v % 4096 == 0 && lo * 4096 <= v <= end && Ready(vm, sched) && Progress(s, Now(vm, sched), lo, v / 4096)
      invariant Budget(s, Now(vm, sched), |Missing(s.Win(), lo, v / 4096)|)
    {
      outcome := RangeRound(vm, sched, v, s, lo, hi);
      if !outcome.Done? {
        return;
      }
      v := v + 4096;
    }
    RangeEnds(s, Now(vm, sched), lo, hi);
    RangeCharged(s, Now(vm, sched), lo, hi);
    outcome := Done;
  }

  /** One page of the range that began at `s`. */
  method RangeRound(vm: AddressSpace, sched: Processes.Scheduler, v: nat, ghost s: Snapshot, ghost lo: nat,
                    ghost hi: nat) returns (outcome: Outcome)
    requires Ready(vm, sched) && v % 4096 == 0 && InWindow(v / 4096) && lo <= v / 4096 < hi
    requires Progress(s, Now(vm, sched), lo, v / 4096) && Budget(s, Now(vm, sched), |Missing(s.Win(), lo, v / 4096)|)
    modifies vm`mem, vm`tables, vm.pmm`freeMemory, vm.pmm.bitmap, sched.allocations
    ensures !outcome.Done? ==> outcome == RangeOutcome(s, lo, hi)
    ensures outcome.Failed? ==> Ready(vm, sched) && vm.pmm.Free() == {} && Accounted(s, Now(vm, sched))
    ensures outcome.Done? ==>
              && Ready(vm, sched) && Progress(s, Now(vm, sched), lo, v / 4096 + 1)
              && Budget(s, Now(vm, sched), |Missing(s.Win(), lo, v / 4096 + 1)|)
  {
    hide Ready, Now, Progress, Accounted, Walk, PageOutcome, RangeOutcome, Budget, Spent, SameRights, Missing, Window;
    hide Pmm.FrameAllocator.InUse;
    ghost var s1, w := Now(vm, sched), v / 4096;
    outcome := MapRound(vm, sched, v);
    ghost var s2 := Now(vm, sched);
    if outcome.Done? {
      RoundDone(s, s1, s2, lo, w);
    } else {
      Progressed(s, s1, lo, w);
      RangeStops(s, s1, lo, w, hi);
    }
  }

  lemma RoundDone(s: Snapshot, s1: Snapshot, s2: Snapshot, lo: nat, w: nat)
    requires lo <= w && InWindow(w) && Progress(s, s1, lo, w) && Budget(s, s1, |Missing(s.Win(), lo, w)|)
    requires Progress(s1, s2, w, w + 1) && (w in s1.Win() ==> s2 == s1) && (w !in s1.Win() ==> Spent(s1, s2, w))
    ensures Progress(s, s2, lo, w + 1) && Budget(s, s2, |Missing(s.Win(), lo, w + 1)|)
  {
    hide Progress, Walk, Budget, Spent, SameRights, Missing, Window;
    ProgressFacts(s1, s2, w, w + 1);
    RangeGoesOn(s, s1, s2, lo, w);
    ProgressTransitive(s, s1, s2, lo, w, w + 1);
  }

  /** No large page lies in the window. */
  ghost predicate NoLargePages(vm: AddressSpace)
    reads vm`mem
  {
    forall w: nat :: InWindow(w) ==> vm.NoLarge(w)
  }

  /**
   * `usermode_reset_address_space`: the entries an exited program left behind go, whatever frames they name. No
   * other translation changes, and no frame but the tables is written.
   */
  method ResetAddressSpace(vm: AddressSpace)
    requires vm.Valid() && NoLargePages(vm)
    modifies vm`mem
    ensures vm.Valid() && Window(vm.mem, vm.root) == map[] && Isolated(vm.mem, vm.root, vm.tables, vm.pmm.Free())
    ensures SameRights(old(vm.mem), vm.mem, vm.root)
    ensures OutsideSame(old(vm.mem), vm.mem, vm.root)
    ensures vm.PathTo(USER_FIRST).level == old(vm.PathTo(USER_FIRST)).level
    ensures Extends(old(vm.mem), vm.tables, vm.pmm.Free(), vm.mem, vm.tables, vm.pmm.Free())
  {
    hide Walk, Tree, Extends, Present, Pmm.FrameAllocator.InUse;
    ghost var m0 := vm.mem;
    ExtendsSelf(vm.mem, vm.tables, vm.pmm.Free());
    var v := 0x40_0000;
    while v < 0x60_0000
      invariant v % 4096 == 0 && 0x40_0000 <= v <= 0x60_0000 && vm.Valid()
      invariant forall x: nat :: x < PAGES ==>
                  Unmapping(Walk(m0, vm.root, 4, x), Walk(vm.mem, vm.root, 4, x), USER_FIRST <= x < v / 4096)
      invariant Extends(old(vm.mem), vm.tables, vm.pmm.Free(), vm.mem, vm.tables, vm.pmm.Free())
    {
      assert PageOf(v) == v / 4096 && InWindow(v / 4096) && old(vm.NoLarge(v / 4096));
      assert Unmapping(Walk(m0, vm.root, 4, v / 4096), vm.PathTo(v / 4096), false);
      var mapped := vm.IsMapped(v);
      if mapped {
        ghost var m := vm.mem;
        vm.UnmapPage(v);
        ExtendsTransitive(old(vm.mem), vm.tables, vm.pmm.Free(), m, vm.tables, vm.pmm.Free(), vm.mem, vm.tables,
            vm.pmm.Free());
      }
      v := v + 4096;
    }
    EmptyWindow(old(vm.mem), vm.mem, vm.root, vm.tables, vm.pmm.Free());
  }

  /** The walk for a page of the window before and after it was reset. */
  ghost predicate Unmapping(p: Path, q: Path, reset: bool) {
    if reset then !q.Mapped() && q.level == p.level && q.user == p.user && q.writable == p.writable else q == p
  }

  lemma EmptyWindow(mem: Memory, mem': Memory, root: nat, tables: map<Node, nat>, free: set<nat>)
    requires forall x: nat :: x < PAGES ==>
               Unmapping(Walk(mem, root, 4, x), Walk(mem', root, 4, x), USER_FIRST <= x < USER_END)
    ensures Window(mem', root) == map[] && Isolated(mem', root, tables, free) && SameRights(mem, mem', root)
    ensures OutsideSame(mem, mem', root)
    ensures Walk(mem', root, 4, USER_FIRST).level == Walk(mem, root, 4, USER_FIRST).level
  {
    hide Walk;
  }
}
