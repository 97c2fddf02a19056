/** kernel/elf_loader.c: an ELF64 file is placed in the user window (chapter 5 of the System V gABI). */
module ElfLoader {
  import opened Bytes
  import opened PageTables
  import opened Paging
  import opened UserMode
  import Pmm
  import Processes
  import Scheduling

  const ELF_MAGIC: nat := 0x464C_457F
  const KERNEL_SPACE: nat := 0xFFFF_8000_0000_0000
  const STACK_VIRT: nat := 0x50_0000
  const STACK_SIZE: nat := 0x4000

  type File = f: seq<byte> | |f| >= 64 witness seq(64, _ => 0)

  /** The fields of a program header the loader uses. */
  datatype Segment = Segment(kind: nat, offset: nat, vaddr: nat, filesz: nat, memsz: nat) {
    predicate Loads() { kind == 1 }
    predicate Refused() { kind == 1 && vaddr >= KERNEL_SPACE }
    /** The file has the byte that belongs at `a`. */
    predicate Provides(a: nat) { kind == 1 && vaddr <= a < vaddr + filesz }
    predicate Occupies(a: nat) { kind == 1 && vaddr <= a < vaddr + memsz }
    predicate HasPage(w: nat) { kind == 1 && FirstPage() <= w < EndPage() }
    function FirstPage(): nat { vaddr / 4096 }
    function EndPage(): nat { (vaddr + memsz + 4095) / 4096 }
  }

  function Entry(file: File): nat { Le64(file, 24) }
  function HeaderOffset(file: File): nat { Le64(file, 32) }
  function HeaderCount(file: File): nat { Le16(file, 56) }

  predicate Accepted(file: File) {
    Le32(file, 0) == ELF_MAGIC && file[4] == 2 && Le16(file, 18) == 0x3E && HeaderCount(file) != 0
  }

  predicate HeadersInside(file: File) { HeaderOffset(file) + 56 * HeaderCount(file) <= |file| }

  function SegmentAt(file: File, i: nat): Segment
    requires HeadersInside(file) && i < HeaderCount(file)
  {
    var at := HeaderOffset(file) + 56 * i;
    Segment(Le32(file, at), Le64(file, at + 8), Le64(file, at + 16), Le64(file, at + 32), Le64(file, at + 40))
  }

  /** What the loader reads of the file header, byte by byte. */
  lemma HeaderBytes(file: File)
    ensures Accepted(file) <==>
            file[..5] == [0x7F, 0x45, 0x4C, 0x46, 2] && file[18..20] == [0x3E, 0] && file[56..58] != [0, 0]
    ensures Entry(file) == LittleEndian(file[24..32])
    ensures HeaderOffset(file) == LittleEndian(file[32..40]) && HeaderCount(file) == LittleEndian(file[56..58])
  {
    FieldBytes(file, 24);
    FieldBytes(file, 32);
    FieldBytes(file, 56);
    hide Le64, LittleEndian;
    assert file[..5] == [file[0], file[1], file[2], file[3], file[4]];
    assert file[18..20] == [file[18], file[19]] && file[56..58] == [file[56], file[57]];
  }

  /** The `i`-th program header, byte by byte. */
  lemma SegmentBytes(file: File, i: nat)
    requires HeadersInside(file) && i < HeaderCount(file)
    ensures var at := LittleEndian(file[32..40]) + 56 * i;
            && at + 56 <= |file|
            && SegmentAt(file, i) ==
               Segment(LittleEndian(file[at..at + 4]), LittleEndian(file[at + 8..at + 16]),
                   LittleEndian(file[at + 16..at + 24]), LittleEndian(file[at + 32..at + 40]),
                   LittleEndian(file[at + 40..at + 48]))
  {
    HeaderBytes(file);
    var at := HeaderOffset(file) + 56 * i;
    FieldBytes(file, at);
    FieldBytes(file, at + 8);
    FieldBytes(file, at + 16);
    FieldBytes(file, at + 32);
    FieldBytes(file, at + 40);
  }

  /** A segment that occupies memory has exactly the pages of the addresses it occupies. */
  lemma PagesOccupied(s: Segment, w: nat)
    requires s.memsz > 0
    ensures s.HasPage(w) <==> exists a: nat :: s.Occupies(a) && a / 4096 == w
  {
    var first, last := s.vaddr, s.vaddr + s.memsz - 1;
    assert (last + 4096) / 4096 == last / 4096 + 1;
    if s.HasPage(w) {
      var a: nat := if w == first / 4096 then first else 4096 * w;
      assert s.Occupies(a) && a / 4096 == w;
    }
  }

  /** A segment inside the user window, no longer in the file than in memory. */
  predicate Fitting(file: File, s: Segment) {
    s.Loads() && !s.Refused() ==>
      0x40_0000 <= s.vaddr && s.vaddr + s.memsz <= 0x60_0000 && s.filesz <= s.memsz && s.offset + s.filesz <= |file|
  }

  ghost predicate WellFormed(file: File) {
    Accepted(file) ==> HeadersInside(file) && forall i :: 0 <= i < HeaderCount(file) ==>
                                                Fitting(file, SegmentAt(file, i))
  }

  ghost predicate NoneRefused(file: File, n: nat)
    requires HeadersInside(file) && n <= HeaderCount(file)
  {
    forall i :: 0 <= i < n ==> !SegmentAt(file, i).Refused()
  }

  /** The byte the first `n` segments put at `a`; the last one to provide it wins. */
  ghost function Image(file: File, n: nat, a: nat): byte
    requires WellFormed(file) && Accepted(file) && n <= HeaderCount(file) && NoneRefused(file, n)
  {
    if n == 0 then 0
    else
      var s := SegmentAt(file, n - 1);
      if s.Provides(a) then file[s.offset + (a - s.vaddr)] else Image(file, n - 1, a)
  }

  /** Every mapped window page shows the image. */
  ghost predicate Shows(mem: Memory, win: map<nat, nat>, file: File, n: nat)
    requires WellFormed(file) && Accepted(file) && n <= HeaderCount(file) && NoneRefused(file, n)
  {
    && (forall w: nat :: w in win ==> win[w] < |mem|)
    && (forall w: nat, k: nat :: w in win && k < 4096 ==> mem[win[w]][k] == Image(file, n, 4096 * w + k))
  }

  /** The pages of the first `n` segments are in the window. */
  ghost predicate Covers(win: map<nat, nat>, file: File, n: nat)
    requires HeadersInside(file) && n <= HeaderCount(file)
  {
    forall i, w: nat :: 0 <= i < n && SegmentAt(file, i).HasPage(w) ==> w in win
  }

  lemma {:induction false} ImageZero(file: File, n: nat, a: nat)
    requires WellFormed(file) && Accepted(file) && n <= HeaderCount(file) && NoneRefused(file, n)
    requires forall i :: 0 <= i < n ==> !SegmentAt(file, i).Provides(a)
    ensures Image(file, n, a) == 0
  {
    hide SegmentAt;
    if n > 0 {
      ImageZero(file, n - 1, a);
    }
  }

  /** Cleared pages outside the earlier segments show the image too. */
  lemma ShowsMore(m0: Memory, win0: map<nat, nat>, m1: Memory, win1: map<nat, nat>, file: File, n: nat, lo: nat,
                  hi: nat)
    requires WellFormed(file) && Accepted(file) && n <= HeaderCount(file) && NoneRefused(file, n)
    requires Shows(m0, win0, file, n) && Covers(win0, file, n) && Added(m0, win0, m1, win1, lo, hi)
    ensures Shows(m1, win1, file, n) && Covers(win1, file, n)
  {
    forall w: nat, k: nat | w in win1 && k < 4096 ensures m1[win1[w]][k] == Image(file, n, 4096 * w + k) {
      if w !in win0 {
        forall i | 0 <= i < n ensures !SegmentAt(file, i).Provides(4096 * w + k) {
          assert Fitting(file, SegmentAt(file, i));
          assert (4096 * w + k) / 4096 == w;
        }
        ImageZero(file, n, 4096 * w + k);
      }
    }
  }

  /** The window's pages hold what they held, with the first `n` of `bytes` copied to `at`. */
  ghost predicate Copied(mem: Memory, mem': Memory, win: map<nat, nat>, at: nat, bytes: seq<byte>, n: nat)
    requires n <= |bytes|
  {
    && |mem'| == |mem| && (forall w: nat :: w in win ==> win[w] < |mem|)
    && (forall w: nat, k: nat :: w in win && k < 4096 ==>
          mem'[win[w]][k] == if at <= 4096 * w + k < at + n then bytes[4096 * w + k - at] else mem[win[w]][k])
  }

  /** No frame but those behind the window is different. */
  ghost predicate OnlyWindow(mem: Memory, mem': Memory, win: map<nat, nat>) {
    |mem'| == |mem| && forall f: nat :: f < |mem| && f !in win.Values ==> mem'[f] == mem[f]
  }

  /** One byte stored through the page tables. */
  method StoreByte(vm: AddressSpace, a: nat, b: byte)
    requires vm.Valid() && Isolated(vm.mem, vm.root, vm.tables, vm.pmm.Free()) && a / 4096 in Window(vm.mem, vm.root)
    modifies vm`mem
    ensures vm.Valid() && Isolated(vm.mem, vm.root, vm.tables, vm.pmm.Free())
    ensures Window(vm.mem, vm.root) == old(Window(vm.mem, vm.root)) && SameRights(old(vm.mem), vm.mem, vm.root)
    ensures OutsideSame(old(vm.mem), vm.mem, vm.root)
    ensures vm.PathTo(USER_FIRST) == old(vm.PathTo(USER_FIRST))
    ensures var f := old(Window(vm.mem, vm.root))[a / 4096];
            f < |old(vm.mem)| && vm.mem == old(vm.mem)[f := old(vm.mem)[f][a % 4096 := b]]
  {
    hide Walk, Tree, Pmm.FrameAllocator.InUse, Present;
    var f := Walk(vm.mem, vm.root, 4, a / 4096).entry / 4096;
    ghost var m0 := vm.mem;
    var data: Frame := vm.mem[f][a % 4096 := b];
    DataWrite(m0, vm.root, vm.tables, f, data);
    vm.mem := vm.mem[f := data];
    SameWindow(m0, vm.mem, vm.root, vm.tables, vm.pmm.Free());
  }

  lemma SameWindow(mem: Memory, mem': Memory, root: nat, tables: map<Node, nat>, free: set<nat>)
    requires |mem'| == |mem| && forall x: nat :: x < PAGES ==> Walk(mem', root, 4, x) == Walk(mem, root, 4, x)
    requires Isolated(mem, root, tables, free)
    ensures Window(mem', root) == Window(mem, root) && Isolated(mem', root, tables, free) && SameRights(mem, mem', root)
    ensures OutsideSame(mem, mem', root)
  {
    hide Walk;
    assert Window(mem', root) == Window(mem, root);
  }

  /** The `memcpy` into the window. */
  method CopyIn(vm: AddressSpace, at: nat, bytes: seq<byte>)
    requires vm.Valid() && Isolated(vm.mem, vm.root, vm.tables, vm.pmm.Free())
    requires forall a: nat :: at <= a < at + |bytes| ==> a / 4096 in Window(vm.mem, vm.root)
    modifies vm`mem
    ensures vm.Valid() && Isolated(vm.mem, vm.root, vm.tables, vm.pmm.Free())
    ensures Window(vm.mem, vm.root) == old(Window(vm.mem, vm.root)) && SameRights(old(vm.mem), vm.mem, vm.root)
    ensures Copied(old(vm.mem), vm.mem, Window(vm.mem, vm.root), at, bytes, |bytes|)
    ensures OutsideSame(old(vm.mem), vm.mem, vm.root)
    ensures OnlyWindow(old(vm.mem), vm.mem, Window(vm.mem, vm.root))
    ensures vm.PathTo(USER_FIRST) == old(vm.PathTo(USER_FIRST))
  {
    hide Walk, Window, Isolated, SameRights, Copied, OutsideSame, Pmm.FrameAllocator.InUse;
    ghost var m0, win := vm.mem, Window(vm.mem, vm.root);
    CopiedNone(m0, vm.root, vm.tables, vm.pmm.Free(), at, bytes);
    var j := 0;
    while j < |bytes|
      invariant 0 <= j <= |bytes| && vm.Valid() && Isolated(vm.mem, vm.root, vm.tables, vm.pmm.Free())
      invariant Window(vm.mem, vm.root) == win && SameRights(m0, vm.mem, vm.root)
      invariant Copied(m0, vm.mem, win, at, bytes, j)
      invariant OnlyWindow(m0, vm.mem, win) && OutsideSame(m0, vm.mem, vm.root)
      invariant vm.PathTo(USER_FIRST) == old(vm.PathTo(USER_FIRST))
    {
      ghost var m1 := vm.mem;
      StoreByte(vm, at + j, bytes[j]);
      SameRightsTransitive(m0, m1, vm.mem, vm.root);
      OutsideTransitive(m0, m1, vm.mem, vm.root);
      CopiedNext(m0, m1, vm.root, vm.tables, vm.pmm.Free(), at, bytes, j);
      j := j + 1;
    }
  }

  lemma CopiedNone(mem: Memory, root: nat, tables: map<Node, nat>, free: set<nat>, at: nat, bytes: seq<byte>)
    requires Isolated(mem, root, tables, free)
    ensures Copied(mem, mem, Window(mem, root), at, bytes, 0) && SameRights(mem, mem, root)
    ensures OutsideSame(mem, mem, root)
  {
    hide Walk;
  }

  lemma CopiedNext(m0: Memory, m1: Memory, root: nat, tables: map<Node, nat>, free: set<nat>, at: nat,
                   bytes: seq<byte>, j: nat)
    requires Isolated(m1, root, tables, free) && j < |bytes| && Copied(m0, m1, Window(m1, root), at, bytes, j)
    requires (at + j) / 4096 in Window(m1, root)
    ensures var win := Window(m1, root);
            var f := win[(at + j) / 4096];
            f < |m1| && Copied(m0, m1[f := m1[f][(at + j) % 4096 := bytes[j]]], win, at, bytes, j + 1)
  {
    hide Walk;
    var win, a := Window(m1, root), at + j;
    var f := win[a / 4096];
    var data: Frame := m1[f][a % 4096 := bytes[j]];
    var m2 := m1[f := data];
    forall w: nat, k: nat | w in win && k < 4096
      ensures m2[win[w]][k] == if at <= 4096 * w + k < at + (j + 1) then bytes[4096 * w + k - at] else m0[win[w]][k]
    {
      assert win[w] == f <==> w == a / 4096;
      assert 4096 * w + k == a <==> w == a / 4096 && k == a % 4096;
    }
  }

  /** The image with one more segment copied in. */
  lemma ShowsNext(m0: Memory, m1: Memory, win: map<nat, nat>, file: File, n: nat)
    requires WellFormed(file) && Accepted(file) && n < HeaderCount(file) && NoneRefused(file, n + 1)
    requires Shows(m0, win, file, n)
    requires SegmentAt(file, n).Loads()
    requires var s := SegmentAt(file, n);
             Fitting(file, s) && Copied(m0, m1, win, s.vaddr, file[s.offset..s.offset + s.filesz], s.filesz)
    ensures Shows(m1, win, file, n + 1)
  {
    hide SegmentAt;
    var s := SegmentAt(file, n);
    forall w: nat, k: nat | w in win && k < 4096 ensures m1[win[w]][k] == Image(file, n + 1, 4096 * w + k) {
      if s.Provides(4096 * w + k) {
        assert file[s.offset..s.offset + s.filesz][4096 * w + k - s.vaddr] == file[s.offset + (4096 * w + k - s.vaddr)];
      }
    }
  }

  /** A header that loads nothing leaves the image as it is. */
  lemma ShowsSkip(mem: Memory, win: map<nat, nat>, file: File, n: nat)
    requires WellFormed(file) && Accepted(file) && n < HeaderCount(file) && NoneRefused(file, n)
    requires Shows(mem, win, file, n) && Covers(win, file, n)
    requires !SegmentAt(file, n).Loads()
    ensures NoneRefused(file, n + 1) && Shows(mem, win, file, n + 1) && Covers(win, file, n + 1)
  {
    hide SegmentAt;
    forall w: nat, k: nat | w in win && k < 4096 ensures mem[win[w]][k] == Image(file, n + 1, 4096 * w + k) {
      assert Image(file, n + 1, 4096 * w + k) == Image(file, n, 4096 * w + k);
    }
  }

  /** The state between two headers: the first `n` are placed. */
  ghost predicate Placed(s: Snapshot, file: File, n: nat) {
    && WellFormed(file) && Accepted(file) && n <= HeaderCount(file) && NoneRefused(file, n)
    && Shows(s.mem, s.Win(), file, n) && Covers(s.Win(), file, n)
  }

  /** Nothing but user mapping happened since `s`, and the tables allow what they allowed. */
  ghost predicate Onward(s: Snapshot, s': Snapshot) {
    SameRights(s.mem, s'.mem, s.root) && Accounted(s, s')
  }

  lemma OnwardTransitive(s0: Snapshot, s1: Snapshot, s2: Snapshot)
    requires Onward(s0, s1) && Onward(s1, s2)
    ensures Onward(s0, s2)
  {
    assert s1.root == s0.root;
    hide SameRights, Tracked, Window, Confined;
    ConfinedTransitive(s0, s1, s2);
    SameRightsTransitive(s0.mem, s1.mem, s2.mem, s0.root);
  }

  /** Mapping a range keeps what is placed. */
  lemma PlacedMapped(s: Snapshot, s': Snapshot, file: File, n: nat, lo: nat, hi: nat)
    requires Placed(s, file, n) && Progress(s, s', lo, hi)
    ensures Placed(s', file, n) && Onward(s, s') && forall w: nat :: lo <= w < hi ==> w in s'.Win()
  {
    hide Shows, Covers, SameRights, Tracked, Window, Kept, WellFormed, Accepted, NoneRefused;
    ShowsMore(s.mem, s.Win(), s'.mem, s'.Win(), file, n, lo, hi);
  }

  lemma PlacedNext(s: Snapshot, s': Snapshot, file: File, n: nat)
    requires Placed(s, file, n) && n < HeaderCount(file) && s' == s.(mem := s'.mem) && s'.Win() == s.Win()
    requires SameRights(s.mem, s'.mem, s.root)
    requires OnlyWindow(s.mem, s'.mem, s.Win()) && OutsideSame(s.mem, s'.mem, s.root)
    requires var g := SegmentAt(file, n);
             && g.Loads() && !g.Refused() && Fitting(file, g)
             && (forall w: nat :: g.FirstPage() <= w < g.EndPage() ==> w in s.Win())
             && Copied(s.mem, s'.mem, s.Win(), g.vaddr, file[g.offset..g.offset + g.filesz], g.filesz)
    ensures Placed(s', file, n + 1) && Onward(s, s')
  {
    hide Shows, SameRights, Window, SegmentAt, Fitting, WellFormed, Accepted, Copied, OutsideSame;
    ShowsNext(s.mem, s'.mem, s.Win(), file, n);
  }

  /**
   * How a load ends that has come to header `i`: refused at a kernel address, stopped by a range that cannot be
   * mapped, or through with the stack.
   */
  ghost function LoadOutcome(file: File, i: nat, t: Tally): Outcome
    requires HeadersInside(file) && i <= HeaderCount(file)
    decreases HeaderCount(file) - i
  {
    if i == HeaderCount(file) then TallyOutcome(t, 0x500, 0x504)
    else
      var g := SegmentAt(file, i);
      if !g.Loads() then LoadOutcome(file, i + 1, t)
      else if g.Refused() then Failed
      else
        var o := TallyOutcome(t, g.FirstPage(), g.EndPage());
        if o.Done? then LoadOutcome(file, i + 1, Charged(t, g.FirstPage(), g.EndPage())) else o
  }

  /** One round of the loop over the program headers. */
  method LoadSegment(vm: AddressSpace, sched: Processes.Scheduler, file: File, i: nat) returns (outcome: Outcome)
    requires Ready(vm, sched) && Placed(Now(vm, sched), file, i) && i < HeaderCount(file)
    modifies vm`mem, vm`tables, vm.pmm`freeMemory, vm.pmm.bitmap, sched.allocations
    ensures outcome.Failed? ==>
              && Ready(vm, sched) && Accounted(old(Now(vm, sched)), Now(vm, sched))
              && (SegmentAt(file, i).Refused() || vm.pmm.Free() == {})
    ensures outcome.Done? ==>
            Ready(vm, sched) && Placed(Now(vm, sched), file, i + 1) && Onward(old(Now(vm, sched)), Now(vm, sched))
    ensures HeadersInside(file)
    ensures LoadOutcome(file, i, TallyOf(old(Now(vm, sched)))) ==
            if outcome.Done? then LoadOutcome(file, i + 1, TallyOf(Now(vm, sched))) else outcome
  {
    hide Ready, Now, Placed, Onward, Accounted, Progress, SegmentAt, Walk, TallyOf, TallyOutcome, Charged;
    hide Pmm.FrameAllocator.InUse;
    ghost var s := Now(vm, sched);
    PlacedFacts(s, file, i);
    var g := SegmentAt(file, i);
    if !g.Loads() {
      PlacedSkip(s, file, i);
      return Done;
    }
    if g.vaddr >= KERNEL_SPACE {
      AccountedSelf(s);
      return Failed;
    }
    outcome := MapRange(vm, sched, g.vaddr, g.memsz);
    if outcome.Done? {
      ghost var s1 := Now(vm, sched);
      PlacedMapped(s, s1, file, i, g.FirstPage(), g.EndPage());
      PlaceBytes(vm, sched, file, i);
      OnwardTransitive(s, s1, Now(vm, sched));
    }
  }

  /** The bytes of a segment are copied to its pages. */
  method PlaceBytes(vm: AddressSpace, sched: Processes.Scheduler, file: File, i: nat)
    requires Ready(vm, sched) && Placed(Now(vm, sched), file, i) && i < HeaderCount(file)
    requires var g := SegmentAt(file, i);
             g.Loads() && !g.Refused() && forall w: nat :: g.FirstPage() <= w < g.EndPage() ==>
                                            w in Now(vm, sched).Win()
    modifies vm`mem
    ensures Ready(vm, sched) && Placed(Now(vm, sched), file, i + 1) && Onward(old(Now(vm, sched)), Now(vm, sched))
    ensures TallyOf(Now(vm, sched)) == TallyOf(old(Now(vm, sched)))
  {
    hide Placed, Onward, SegmentAt, SameRights, OutsideSame, Window, Isolated, Scheduling.Inv, Walk, Tree;
    hide Pmm.FrameAllocator.InUse, Copied;
    ghost var s := Now(vm, sched);
    PlacedFacts(s, file, i);
    var g := SegmentAt(file, i);
    ghost var bytes := file[g.offset..g.offset + g.filesz];
    CopiedNone(vm.mem, vm.root, vm.tables, vm.pmm.Free(), g.vaddr, bytes);
    forall a: nat | g.vaddr <= a < g.vaddr + |bytes| ensures a / 4096 in Window(vm.mem, vm.root) {
      OccupiedPage(g, a);
      assert a / 4096 in s.Win();
    }
    if g.filesz > 0 {
      CopyIn(vm, g.vaddr, file[g.offset..g.offset + g.filesz]);
    }
    PlacedNext(s, Now(vm, sched), file, i);
  }

  lemma PlacedFacts(s: Snapshot, file: File, i: nat)
    requires Placed(s, file, i) && i < HeaderCount(file)
    ensures HeadersInside(file) && Fitting(file, SegmentAt(file, i))
  {
  }

  lemma AccountedSelf(s: Snapshot)
    ensures Accounted(s, s)
  {
    hide Confined;
    ConfinedSelf(s);
  }

  lemma PlacedSkip(s: Snapshot, file: File, n: nat)
    requires Placed(s, file, n) && n < HeaderCount(file) && !SegmentAt(file, n).Loads()
    ensures Placed(s, file, n + 1) && Onward(s, s)
  {
    hide Shows, Covers, Window, Accounted;
    AccountedSelf(s);
    ShowsSkip(s.mem, s.Win(), file, n);
  }

  lemma OccupiedPage(g: Segment, a: nat)
    requires g.Occupies(a)
    ensures g.FirstPage() <= a / 4096 < g.EndPage()
  {
  }

  /**
   * `elf_load`. A file that is refused by its header leaves everything as it is. When the load is done, the window
   * shows the image of the file, its pages are backed by frames of their own, and the stack is mapped.
   */
  method ElfLoad(vm: AddressSpace, sched: Processes.Scheduler, file: File) returns (outcome: Outcome, entry: nat)
    requires vm.Valid() && NoLargePages(vm) && Owner(sched)
    requires sched.FramesHeld(sched.allocations[sched.current], vm.pmm) && WellFormed(file)
    modifies vm`mem, vm`tables, vm.pmm`freeMemory, vm.pmm.bitmap, sched.allocations
    ensures !Accepted(file) ==> outcome.Failed? && Now(vm, sched) == old(Now(vm, sched)) && vm.Valid()
    ensures Accepted(file) && !outcome.Fault? ==> Ready(vm, sched) && Balanced(old(Now(vm, sched)), Now(vm, sched))
    ensures Accepted(file) ==> outcome == LoadOutcome(file, 0, StartTally(old(Now(vm, sched))))
    ensures Accepted(file) && outcome.Failed? ==> !NoneRefused(file, HeaderCount(file)) || vm.pmm.Free() == {}
    ensures outcome.Done? ==>
              && entry == Entry(file) && Placed(Now(vm, sched), file, HeaderCount(file))
              && StackMapped(Now(vm, sched).Win())
              && SameRights(old(vm.mem), vm.mem, vm.root)
              && (Separate(file) ==> Loaded(vm.mem, vm.root, file))
  {
    hide Ready, Separate, Loaded, Placed, Onward, Accounted, Progress, Window, SameRights, SegmentAt, Isolated;
    hide Balanced, Emptied, Now, Walk;
    hide TallyOf, StartTally, LoadOutcome, Pmm.FrameAllocator.InUse;
    entry := 0;
    if Le32(file, 0) != ELF_MAGIC || file[4] != 2 || Le16(file, 18) != 0x3E || HeaderCount(file) == 0 {
      return Failed, 0;
    }
    ghost var s0 := Now(vm, sched);
    SnapshotOf(vm, sched);
    StartLoad(vm, sched, file);
    ghost var s := Now(vm, sched);
    OnwardSelf(s);
    ghost var t := StartTally(s0);
    EmptiedTally(s0, s);
    var i := 0;
    while i < HeaderCount(file)
      invariant 0 <= i <= HeaderCount(file) && Ready(vm, sched) && Placed(Now(vm, sched), file, i)
      invariant Onward(s, Now(vm, sched))
      invariant LoadOutcome(file, i, TallyOf(Now(vm, sched))) == LoadOutcome(file, 0, t)
    {
      ghost var s1 := Now(vm, sched);
      outcome := LoadSegment(vm, sched, file, i);
      if !outcome.Done? {
        if outcome.Failed? {
          BalancedNow(s0, s, s1, Now(vm, sched));
        }
        return;
      }
      OnwardTransitive(s, s1, Now(vm, sched));
      i := i + 1;
    }
    ghost var s1 := Now(vm, sched);
    StackOutcome(file, TallyOf(s1));
    outcome := MapStack(vm, sched, file);
    if !outcome.Fault? {
      BalancedNow(s0, s, s1, Now(vm, sched));
    }
    if outcome.Done? {
      OnwardTransitive(s, s1, Now(vm, sched));
      RightsKept(s0, s, Now(vm, sched));
      LoadedNow(vm, sched, file);
      SnapshotOf(vm, sched);
      entry := Entry(file);
    }
  }

  /** The stack is mapped after the last header. */
  method MapStack(vm: AddressSpace, sched: Processes.Scheduler, file: File) returns (outcome: Outcome)
    requires Ready(vm, sched) && Placed(Now(vm, sched), file, HeaderCount(file))
    modifies vm`mem, vm`tables, vm.pmm`freeMemory, vm.pmm.bitmap, sched.allocations
    ensures !outcome.Fault? ==> Ready(vm, sched) && Accounted(old(Now(vm, sched)), Now(vm, sched))
    ensures outcome.Failed? ==> vm.pmm.Free() == {}
    ensures outcome == TallyOutcome(TallyOf(old(Now(vm, sched))), 0x500, 0x504)
    ensures outcome.Done? ==>
              && Placed(Now(vm, sched), file, HeaderCount(file)) && Onward(old(Now(vm, sched)), Now(vm, sched))
              && StackMapped(Now(vm, sched).Win())
  {
    hide Ready, Now, Placed, Onward, Accounted, Progress, Walk, TallyOf, TallyOutcome, Charged;
    hide Pmm.FrameAllocator.InUse;
    assert STACK_VIRT / 4096 == 0x500 && (STACK_VIRT + STACK_SIZE + 4095) / 4096 == 0x504;
    ghost var s := Now(vm, sched);
    outcome := MapRange(vm, sched, STACK_VIRT, STACK_SIZE);
    if outcome.Done? {
      PlacedMapped(s, Now(vm, sched), file, HeaderCount(file), 0x500, 0x504);
      OnwardAccounted(s, Now(vm, sched));
    }
  }

  /**
   * Since the window was emptied, every frame taken is behind it or a page table, and the first 128 are recorded.
   * No frame that was in use is written but the page tables, and no translation outside the window changes.
   */
  ghost predicate Balanced(s: Snapshot, s': Snapshot) {
    && s'.root == s.root && |s'.mem| == |s.mem| && OutsideSame(s.mem, s'.mem, s.root)
    && (forall f: nat :: f < |s.mem| && f !in s.free && f !in s.tables.Values ==> s'.mem[f] == s.mem[f])
    && |s'.free| + |s'.tables| + |s'.Win()| == |s.free| + |s.tables|
    && (s.frames == [] ==> Tracked(s'.frames, s'.Win()))
  }

  predicate StackMapped(win: map<nat, nat>) {
    forall w: nat :: 0x500 <= w < 0x504 ==> w in win
  }

  lemma SnapshotOf(vm: AddressSpace, sched: Processes.Scheduler)
    ensures Now(vm, sched).mem == vm.mem && Now(vm, sched).root == vm.root
  {
  }

  /** The window is empty, and nothing else is different. */
  ghost predicate Emptied(s: Snapshot, s': Snapshot) {
    && s' == s.(mem := s'.mem) && s'.Win() == map[] && SameRights(s.mem, s'.mem, s.root)
    && OutsideSame(s.mem, s'.mem, s.root) && Extends(s.mem, s.tables, s.free, s'.mem, s.tables, s.free)
    && WindowPath(s').level == WindowPath(s).level
  }

  /** The tally of a state once its window is empty. */
  ghost function StartTally(s: Snapshot): Tally {
    Tally(|s.free|, WindowPath(s).level, WindowPath(s).writable, {})
  }

  lemma EmptiedTally(s: Snapshot, s': Snapshot)
    requires Emptied(s, s')
    ensures TallyOf(s') == StartTally(s)
  {
    assert WindowPath(s').writable == WindowPath(s).writable;
    hide Walk, Window;
  }

  lemma StackOutcome(file: File, t: Tally)
    requires HeadersInside(file)
    ensures LoadOutcome(file, HeaderCount(file), t) == TallyOutcome(t, 0x500, 0x504)
  {
  }

  /** The window is emptied before the first header. */
  method StartLoad(vm: AddressSpace, sched: Processes.Scheduler, file: File)
    requires vm.Valid() && NoLargePages(vm) && Owner(sched)
    requires sched.FramesHeld(sched.allocations[sched.current], vm.pmm)
    requires WellFormed(file) && Accepted(file)
    modifies vm`mem
    ensures Ready(vm, sched) && Placed(Now(vm, sched), file, 0) && Emptied(old(Now(vm, sched)), Now(vm, sched))
  {
    hide Window, SameRights, OutsideSame, Isolated, Placed, Scheduling.Inv, Walk, Tree, Extends;
    hide Pmm.FrameAllocator.InUse;
    ResetAddressSpace(vm);
    NothingPlaced(Now(vm, sched), file);
  }

  lemma NothingPlaced(s: Snapshot, file: File)
    requires WellFormed(file) && Accepted(file) && s.Win() == map[]
    ensures Placed(s, file, 0)
  {
    hide Window;
  }

  lemma OnwardSelf(s: Snapshot)
    ensures Onward(s, s)
  {
    hide Walk, Accounted;
    AccountedSelf(s);
  }

  lemma OnwardAccounted(s: Snapshot, s': Snapshot)
    requires Onward(s, s')
    ensures Accounted(s, s')
  {
  }

  lemma BalancedNow(s0: Snapshot, s: Snapshot, s1: Snapshot, s2: Snapshot)
    requires Emptied(s0, s) && Onward(s, s1) && Accounted(s1, s2)
    ensures Balanced(s0, s2)
  {
    hide SameRights, Window, OutsideSame, Confined, Extends, Tracked, Walk, WindowPath;
    EmptyTracked(s);
    ConfinedTransitive(s, s1, s2);
    SparedSince(s0, s, s2);
  }

  lemma EmptyTracked(s: Snapshot)
    requires s.Win() == map[]
    ensures s.frames == [] ==> Tracked(s.frames, s.Win())
  {
    hide Window;
  }

  /** What was neither free nor a table before the window was emptied is as it was. */
  lemma SparedSince(s0: Snapshot, s: Snapshot, s2: Snapshot)
    requires Emptied(s0, s) && Confined(s, s2)
    ensures s2.root == s0.root && |s2.mem| == |s0.mem| && OutsideSame(s0.mem, s2.mem, s0.root)
    ensures forall f: nat :: f < |s0.mem| && f !in s0.free && f !in s0.tables.Values ==> s2.mem[f] == s0.mem[f]
  {
    hide SameRights, Window, OutsideSame;
    OutsideTransitive(s0.mem, s.mem, s2.mem, s0.root);
    forall f: nat | f < |s0.mem| && f !in s0.free && f !in s0.tables.Values ensures s2.mem[f] == s0.mem[f] {
      assert Elsewhere(s, f);
    }
  }

  lemma RightsKept(s0: Snapshot, s: Snapshot, s2: Snapshot)
    requires Emptied(s0, s) && Onward(s, s2)
    ensures SameRights(s0.mem, s2.mem, s0.root)
  {
    hide SameRights, Window, Accounted, OutsideSame, Extends;
    SameRightsTransitive(s0.mem, s.mem, s2.mem, s0.root);
  }

  // What the program finds.

  /** The byte at address `a` as the processor reads it; 256 where there is none. */
  function ByteAt(mem: Memory, root: nat, a: nat): nat {
    var p := Walk(mem, root, 4, a / 4096);
    if p.Mapped() && p.level == 1 && p.entry / 4096 < |mem| then mem[p.entry / 4096][a % 4096] else 256
  }

  /** Segments lie apart from each other and from the stack. */
  ghost predicate Separate(file: File) {
    HeadersInside(file) ==>
      && (forall i, j :: 0 <= i < j < HeaderCount(file) ==> Apart(SegmentAt(file, i), SegmentAt(file, j)))
      && (forall i :: 0 <= i < HeaderCount(file) ==>
            Apart(SegmentAt(file, i), Segment(1, 0, STACK_VIRT, 0, STACK_SIZE)))
  }

  predicate Apart(g: Segment, h: Segment) {
    g.Loads() && h.Loads() ==> g.vaddr + g.memsz <= h.vaddr || h.vaddr + h.memsz <= g.vaddr
  }

  /** Every segment reads as its bytes in the file and then zeros, the stack as zeros. */
  ghost predicate Loaded(mem: Memory, root: nat, file: File) {
    && HeadersInside(file)
    && (forall i, a: nat :: 0 <= i < HeaderCount(file) && SegmentAt(file, i).Occupies(a) ==>
          ByteAt(mem, root, a) == SegmentByte(file, SegmentAt(file, i), a))
    && (forall a: nat :: STACK_VIRT <= a < STACK_VIRT + STACK_SIZE ==> ByteAt(mem, root, a) == 0)
  }

  function SegmentByte(file: File, g: Segment, a: nat): nat {
    if g.Provides(a) && g.offset + (a - g.vaddr) < |file| then file[g.offset + (a - g.vaddr)] else 0
  }

  /** The image has the bytes of the one segment that occupies an address. */
  lemma {:induction false} ImageOf(file: File, n: nat, i: nat, a: nat)
    requires WellFormed(file) && Accepted(file) && n <= HeaderCount(file) && NoneRefused(file, n)
    requires Separate(file) && i < n && SegmentAt(file, i).Occupies(a)
    ensures Image(file, n, a) as int == SegmentByte(file, SegmentAt(file, i), a)
    decreases n
  {
    hide SegmentAt;
    assert Fitting(file, SegmentAt(file, n - 1));
    if i == n - 1 {
      if !SegmentAt(file, i).Provides(a) {
        forall j | 0 <= j < n - 1 ensures !SegmentAt(file, j).Provides(a) {
          assert Apart(SegmentAt(file, j), SegmentAt(file, i)) && Fitting(file, SegmentAt(file, j));
        }
        ImageZero(file, n - 1, a);
      }
    } else {
      assert Apart(SegmentAt(file, i), SegmentAt(file, n - 1));
      ImageOf(file, n - 1, i, a);
    }
  }

  /** An address in the window reads as the image. */
  lemma ReadsImage(s: Snapshot, file: File, n: nat, a: nat)
    requires Isolated(s.mem, s.root, s.tables, s.free) && Placed(s, file, n) && a / 4096 in s.Win()
    ensures ByteAt(s.mem, s.root, a) == Image(file, n, a)
  {
    hide Walk, Image, WellFormed, Accepted, NoneRefused, Covers, Present;
    assert 4096 * (a / 4096) + a % 4096 == a;
    assert s.mem[s.Win()[a / 4096]][a % 4096] == Image(file, n, 4096 * (a / 4096) + a % 4096);
  }

  /** The loaded program, byte by byte. */
  lemma LoadedProgram(s: Snapshot, file: File)
    requires Isolated(s.mem, s.root, s.tables, s.free) && Placed(s, file, HeaderCount(file)) && StackMapped(s.Win())
    requires Separate(file)
    ensures Loaded(s.mem, s.root, file)
  {
    hide Walk, Isolated, Shows, Image, ByteAt, Window, SegmentAt;
    var n := HeaderCount(file);
    forall i, a: nat | 0 <= i < n && SegmentAt(file, i).Occupies(a)
      ensures ByteAt(s.mem, s.root, a) == SegmentByte(file, SegmentAt(file, i), a)
    {
      OccupiedPage(SegmentAt(file, i), a);
      ReadsImage(s, file, n, a);
      ImageOf(file, n, i, a);
    }
    forall a: nat | STACK_VIRT <= a < STACK_VIRT + STACK_SIZE ensures ByteAt(s.mem, s.root, a) == 0 {
      assert 0x500 <= a / 4096 < 0x504;
      ReadsImage(s, file, n, a);
      forall i | 0 <= i < n ensures !SegmentAt(file, i).Provides(a) {
        assert Fitting(file, SegmentAt(file, i));
        assert Apart(SegmentAt(file, i), Segment(1, 0, STACK_VIRT, 0, STACK_SIZE));
      }
      ImageZero(file, n, a);
    }
  }

  lemma LoadedNow(vm: AddressSpace, sched: Processes.Scheduler, file: File)
    requires Ready(vm, sched) && Placed(Now(vm, sched), file, HeaderCount(file)) && StackMapped(Now(vm, sched).Win())
    ensures Separate(file) ==> Loaded(vm.mem, vm.root, file)
  {
    hide Isolated, Placed, Separate, Loaded, StackMapped;
    if Separate(file) {
      LoadedProgram(Now(vm, sched), file);
    }
  }

  /** The frames of a window of `n` pages that the process table has no room to record. */
  function Unrecorded(n: nat): nat { if n <= Processes.MAX_ALLOCATIONS then 0 else n - Processes.MAX_ALLOCATIONS }

  /**
   * A process loads a program and exits, at once or when the program ends. Whatever came of the load, the address
   * space is ready for the next one, and the free memory is what it was except for new page tables and the pages
   * beyond the 128 that are recorded.
   */
  method RunToExit(vm: AddressSpace, sched: Processes.Scheduler, file: File) returns (outcome: Outcome, entry: nat)
    requires vm.Valid() && NoLargePages(vm) && Owner(sched) && sched.current != 0
    requires sched.allocations[sched.current] == [] && WellFormed(file)
    modifies vm`mem, vm`tables, vm.pmm`freeMemory, vm.pmm.bitmap, sched.allocations, sched.processes
    ensures !outcome.Fault? ==> vm.Valid() && NoLargePages(vm) && sched.allocations[sched.current] == []
    ensures !outcome.Fault? ==> sched.Sized() && Scheduling.Inv(sched.Now())
    ensures !Accepted(file) ==> outcome.Failed? && vm.pmm.freeMemory == old(vm.pmm.freeMemory)
    ensures Accepted(file) && !outcome.Fault? ==>
              vm.pmm.freeMemory + 4096 * |vm.tables| + 4096 * Unrecorded(|Window(vm.mem, vm.root)|) ==
              old(vm.pmm.freeMemory + 4096 * |vm.tables|)
  {
    hide Window, Isolated, Placed, SameRights, Separate, Loaded, Tracked, Walk, Tree, Scheduling.Inv, Scheduling.Step;
    hide Scheduling.Enabled, WellFormed, Accepted, Processes.Elements, Pmm.FrameAllocator.InUse;
    ghost var s0 := Now(vm, sched);
    outcome, entry := ElfLoad(vm, sched, file);
    if outcome.Fault? {
      return;
    }
    ghost var s1 := Now(vm, sched);
    ghost var before := sched.Now();
    sched.Exit(sched.CurrentPid(), vm.pmm);
    Scheduling.StepKeeps(before, Scheduling.Exit);
    if Accepted(file) {
      AfterExit(s1);
    } else {
      Processes.ElementsNone(s1.frames);
    }
  }

  /** The entries that stay behind are plain, and no recorded frame is a table. */
  lemma AfterExit(s: Snapshot)
    requires Isolated(s.mem, s.root, s.tables, s.free) && Tracked(s.frames, s.Win())
    ensures forall f :: f in Processes.Elements(s.frames, |s.frames|) ==> f !in s.tables.Values
    ensures |s.frames| == |s.Win()| - Unrecorded(|s.Win()|)
    ensures forall w: nat :: InWindow(w) && Walk(s.mem, s.root, 4, w).Mapped() ==> Walk(s.mem, s.root, 4, w).level == 1
  {
    hide Walk, Present;
  }
}
