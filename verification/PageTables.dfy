/**
 * Four-level page tables (section 4.5 of the Intel SDM, volume 3A) over a memory of 4 KB frames: the walk the
 * processor makes, and what one entry write does to every translation.
 */
module PageTables {
  import opened Bytes

  const PAGES: nat := 0x10_0000_0000

  type Frame = f: seq<byte> | |f| == 4096 witness seq(4096, _ => 0)
  type Memory = seq<Frame>

  function ZeroFrame(): Frame { seq(4096, _ => 0) }

  function EntryOf(f: Frame, i: nat): (e: nat)
    requires i < 512
    ensures e < TWO64
  {
    Le64(f, 8 * i)
  }

  function SetEntry(f: Frame, i: nat, e: nat): (r: Frame)
    requires i < 512 && e < TWO64
  {
    Splice(f, 8 * i, Put64(e))
  }

  lemma SetEntryOf(f: Frame, i: nat, e: nat, j: nat)
    requires i < 512 && e < TWO64 && j < 512
    ensures EntryOf(SetEntry(f, i, e), j) == if j == i then e else EntryOf(f, j)
  {
    var r := SetEntry(f, i, e);
    if j == i {
      Le64Slice(r, 8 * i);
    } else {
      assert r[8 * j..8 * j + 8] == f[8 * j..8 * j + 8];
      Le64Local(r, f, 8 * j);
    }
  }

  lemma ZeroEntry(i: nat)
    requires i < 512
    ensures EntryOf(ZeroFrame(), i) == 0
  {
    assert ZeroFrame()[8 * i] == 0;
  }

  // Flag bits of an entry.

  predicate Present(e: nat) { e % 2 == 1 }
  predicate Writable(e: nat) { e / 2 % 2 == 1 }
  predicate User(e: nat) { e / 4 % 2 == 1 }

  /** The entry maps a 2 MB or a 1 GB page instead of naming a table. */
  predicate Large(level: nat, e: nat) { 2 <= level <= 3 && e / 128 % 2 == 1 }

  predicate NamesTable(level: nat, e: nat) { level >= 2 && Present(e) && !Large(level, e) }

  /** Low bits below a multiple of 4096. */
  lemma LowBits(q: nat, low: nat)
    requires low < 4096
    ensures var e := 4096 * q + low;
            && e / 4096 == q && Present(e) == Present(low) && Writable(e) == Writable(low) && User(e) == User(low)
            && e / 128 % 2 == low / 128 % 2
  {
    SecondBit(q, low);
    ThirdBit(q, low);
    EighthBit(q, low);
  }

  lemma SecondBit(q: nat, low: nat)
    ensures Writable(4096 * q + low) == Writable(low)
  {
    assert (4096 * q + low) / 2 == 2 * (1024 * q) + low / 2;
  }

  lemma ThirdBit(q: nat, low: nat)
    ensures User(4096 * q + low) == User(low)
  {
    assert (4096 * q + low) / 4 == 2 * (512 * q) + low / 4;
  }

  lemma EighthBit(q: nat, low: nat)
    ensures (4096 * q + low) / 128 % 2 == low / 128 % 2
  {
    var d, r := low / 128, low % 128;
    assert 4096 * q + low == 128 * (32 * q + d) + r;
    Quotient(32 * q + d, r);
    Parity(16 * q, d);
  }

  lemma Quotient(x: nat, r: nat)
    requires r < 128
    ensures (128 * x + r) / 128 == x
  {
  }

  lemma Parity(x: nat, d: nat)
    ensures (2 * x + d) % 2 == d % 2
  {
  }

  /** `phys | flags | PAGE_PRESENT` for a page-aligned address. */
  function LeafEntry(phys: nat, flags: nat): (e: nat)
    requires phys % 4096 == 0 && flags < 4096
    ensures Present(e) && e / 4096 == phys / 4096 && User(e) == User(flags) && Writable(e) == Writable(flags)
    ensures e == phys + flags + (1 - flags % 2) && e < phys + 4096
  {
    var low := if flags % 2 == 1 then flags else flags + 1;
    LowBits(phys / 4096, low);
    phys + low
  }

  /** `table | table_flags`: present, writable, and user as far as `flags` are. */
  function TableEntry(frame: nat, flags: nat): (e: nat)
    ensures Present(e) && Writable(e) && User(e) == User(flags) && e / 4096 == frame && e < 4096 * frame + 8
    ensures e == 4096 * frame + (if flags / 4 % 2 == 1 then 7 else 3)
    ensures forall level :: level >= 2 ==> NamesTable(level, e)
  {
    var low := if User(flags) then 7 else 3;
    LowBits(frame, low);
    4096 * frame + low
  }

  // The tables.

  /** A table by its place: its level, and the address bits that lead to it. */
  datatype Node = Node(level: nat, prefix: nat)

  const ROOT: Node := Node(4, 0)

  function Up(n: Node): Node { Node(n.level + 1, n.prefix / 512) }

  function Down(n: Node, i: nat): Node
    requires n.level >= 1
  {
    Node(n.level - 1, 512 * n.prefix + i)
  }

  /** The bits of page number `w` above the lowest `level` indices. */
  function Prefix(w: nat, level: nat): nat {
    if level == 0 then w else Prefix(w, level - 1) / 512
  }

  /** The table of a level that the walk for page `w` goes through. */
  function On(w: nat, level: nat): Node { Node(level, Prefix(w, level)) }

  /** The entry of that table the walk reads. */
  function Index(w: nat, level: nat): (i: nat)
    requires level >= 1
    ensures i < 512
  {
    Prefix(w, level - 1) % 512
  }

  lemma OnDown(w: nat, level: nat)
    requires level >= 1
    ensures Down(On(w, level), Index(w, level)) == On(w, level - 1)
  {
  }

  lemma UpDown(n: Node, m: Node, i: nat)
    requires m.level >= 1 && i < 512
    ensures Up(n) == m && n.prefix % 512 == i <==> n == Down(m, i)
  {
  }

  /** Two walks agree on a table if and only if they agree on the table and the entry above. */
  lemma OnSame(w: nat, x: nat, level: nat)
    requires level >= 1
    ensures On(x, level - 1) == On(w, level - 1) <==> On(x, level) == On(w, level) && Index(x, level) == Index(w, level)
  {
    OnDown(w, level);
    OnDown(x, level);
  }

  lemma OnRoot(w: nat)
    requires w < PAGES
    ensures On(w, 4) == ROOT
  {
    assert Prefix(w, 1) == w / 512 < 0x800_0000;
    assert Prefix(w, 2) == Prefix(w, 1) / 512 < 0x4_0000;
    assert Prefix(w, 3) == Prefix(w, 2) / 512 < 512;
  }

  /** A page is determined by the table and the entry it ends in. */
  lemma OnLeaf(w: nat, x: nat)
    ensures On(w, 1) == On(x, 1) && Index(w, 1) == Index(x, 1) <==> w == x
  {
    assert Prefix(w, 1) == Prefix(w, 0) / 512 && Prefix(x, 1) == Prefix(x, 0) / 512;
  }

  /** The last entry a walk reads, its level, and the rights left by the tables above it. */
  datatype Path = Path(level: nat, entry: nat, user: bool, writable: bool) {
    predicate Mapped() { Present(entry) }
  }

  /** The processor's walk for page `w`, from the table in `frame`. */
  function Walk(mem: Memory, frame: nat, level: nat, w: nat): (p: Path)
    requires level >= 1
    ensures 1 <= p.level <= level
    decreases level
  {
    if frame >= |mem| then Path(level, 0, true, true)
    else
      var e := EntryOf(mem[frame], Index(w, level));
      if NamesTable(level, e) then
        var p := Walk(mem, e / 4096, level - 1, w);
        p.(user := p.user && User(e), writable := p.writable && Writable(e))
      else Path(level, e, true, true)
  }

  // The tables as a tree of distinct frames.

  /** The entry that names the table `n`. */
  ghost predicate Linked(mem: Memory, tables: map<Node, nat>, n: Node) {
    && n in tables && Up(n) in tables && tables[Up(n)] < |mem|
    && var e := EntryOf(mem[tables[Up(n)]], n.prefix % 512);
       NamesTable(n.level + 1, e) && e / 4096 == tables[n]
  }

  /** Every entry of `n` that names a table names one of `tables`. */
  ghost predicate Closed(mem: Memory, tables: map<Node, nat>, n: Node, i: nat)
    requires i < 512
  {
    n in tables && tables[n] < |mem| && n.level >= 1 &&
    (NamesTable(n.level, EntryOf(mem[tables[n]], i)) ==> Down(n, i) in tables)
  }

  ghost predicate Tree(mem: Memory, root: nat, tables: map<Node, nat>) {
    && ROOT in tables && tables[ROOT] == root
    && (forall n :: n in tables ==> 1 <= n.level <= 4 && tables[n] < |mem| && (n.level == 4 ==> n == ROOT))
    && (forall n, m :: n in tables && m in tables && tables[n] == tables[m] ==> n == m)
    && (forall n :: n in tables && n.level < 4 ==> Linked(mem, tables, n))
    && (forall n, i :: n in tables && 0 <= i < 512 ==> Closed(mem, tables, n, i))
  }

  /** Where a walk goes from a table of the tree. */
  lemma WalkStep(mem: Memory, root: nat, tables: map<Node, nat>, level: nat, w: nat)
    requires Tree(mem, root, tables) && On(w, level) in tables
    ensures 1 <= level <= 4 && tables[On(w, level)] < |mem|
    ensures var e := EntryOf(mem[tables[On(w, level)]], Index(w, level));
            NamesTable(level, e) ==> On(w, level - 1) in tables && tables[On(w, level - 1)] == e / 4096
  {
    hide EntryOf, NamesTable;
    assert Closed(mem, tables, On(w, level), Index(w, level));
    OnDown(w, level);
    var below := On(w, level - 1);
    if below in tables {
      assert Linked(mem, tables, below);
      assert Up(below) == On(w, level);
    }
  }

  /** The entries a walk reads decide it. */
  lemma {:induction false} WalkSame(mem: Memory, mem': Memory, root: nat, tables: map<Node, nat>, level: nat, w: nat)
    requires Tree(mem, root, tables) && On(w, level) in tables && |mem'| == |mem|
    requires forall k :: 1 <= k <= level && On(w, k) in tables ==>
               tables[On(w, k)] < |mem|
                   && EntryOf(mem'[tables[On(w, k)]], Index(w, k)) == EntryOf(mem[tables[On(w, k)]], Index(w, k))
    ensures level >= 1 && Walk(mem', tables[On(w, level)], level, w) == Walk(mem, tables[On(w, level)], level, w)
    decreases level
  {
    hide EntryOf, NamesTable, Tree;
    WalkStep(mem, root, tables, level, w);
    if NamesTable(level, EntryOf(mem[tables[On(w, level)]], Index(w, level))) {
      WalkSame(mem, mem', root, tables, level - 1, w);
    }
  }

  // Writing an entry.

  /** Memory with entry `i` of the table in frame `t` set to `e`. */
  function Store(mem: Memory, t: nat, i: nat, e: nat): (mem': Memory)
    requires t < |mem| && i < 512 && e < TWO64
    ensures |mem'| == |mem|
  {
    mem[t := SetEntry(mem[t], i, e)]
  }

  lemma StoredEntry(mem: Memory, t: nat, i: nat, e: nat, f: nat, j: nat)
    requires t < |mem| && i < 512 && e < TWO64 && f < |mem| && j < 512
    ensures EntryOf(Store(mem, t, i, e)[f], j) == if f == t && j == i then e else EntryOf(mem[f], j)
  {
    SetEntryOf(mem[t], i, e, j);
  }

  /** Writing the entry of a last-level table changes one page's translation and keeps the tree. */
  lemma LeafWrite(mem: Memory, root: nat, tables: map<Node, nat>, w: nat, e: nat)
    requires Tree(mem, root, tables) && w < PAGES && On(w, 1) in tables && e < TWO64
    ensures tables[On(w, 1)] < |mem|
    ensures Tree(Store(mem, tables[On(w, 1)], Index(w, 1), e), root, tables)
  {
    var t, i := tables[On(w, 1)], Index(w, 1);
    var mem' := Store(mem, t, i, e);
    hide EntryOf, Store;
    forall n | n in tables && n.level < 4 ensures Linked(mem', tables, n) {
      assert Linked(mem, tables, n);
      StoredEntry(mem, t, i, e, tables[Up(n)], n.prefix % 512);
    }
    forall n, k | n in tables && 0 <= k < 512 ensures Closed(mem', tables, n, k) {
      assert Closed(mem, tables, n, k);
      StoredEntry(mem, t, i, e, tables[n], k);
    }
  }

  lemma LeafWriteOther(mem: Memory, root: nat, tables: map<Node, nat>, w: nat, e: nat, x: nat)
    requires Tree(mem, root, tables) && w < PAGES && On(w, 1) in tables && e < TWO64 && x < PAGES && x != w
    requires tables[On(w, 1)] < |mem|
    ensures Walk(Store(mem, tables[On(w, 1)], Index(w, 1), e), root, 4, x) == Walk(mem, root, 4, x)
  {
    var t, i := tables[On(w, 1)], Index(w, 1);
    var mem' := Store(mem, t, i, e);
    OnRoot(x);
    OnLeaf(w, x);
    forall k | 1 <= k <= 4 && On(x, k) in tables
      ensures tables[On(x, k)] < |mem|
      ensures EntryOf(mem'[tables[On(x, k)]], Index(x, k)) == EntryOf(mem[tables[On(x, k)]], Index(x, k))
    {
      StoredEntry(mem, t, i, e, tables[On(x, k)], Index(x, k));
    }
    WalkSame(mem, mem', root, tables, 4, x);
  }

  /** The tables above a table are there, each entered in the next. */
  lemma {:induction false} TablesAbove(mem: Memory, root: nat, tables: map<Node, nat>, w: nat, from: nat, level: nat)
    requires Tree(mem, root, tables) && On(w, from) in tables && from <= level <= 4
    ensures On(w, level) in tables
    ensures level < 4 ==>
              && Linked(mem, tables, On(w, level)) && Up(On(w, level)) == On(w, level + 1)
              && On(w, level).prefix % 512 == Index(w, level + 1)
  {
    if level > from {
      TablesAbove(mem, root, tables, w, from, level - 1);
    }
  }

  /** A walk goes through every table on its way, and ends there unless the entry names the next. */
  lemma {:induction false} WalkReaches(mem: Memory, root: nat, tables: map<Node, nat>, level: nat, w: nat, from: nat)
    requires Tree(mem, root, tables) && On(w, level) in tables && On(w, from) in tables && 1 <= level <= from <= 4
    ensures tables[On(w, level)] < |mem|
    ensures var p := Walk(mem, tables[On(w, from)], from, w);
            var e := EntryOf(mem[tables[On(w, level)]], Index(w, level));
            if NamesTable(level, e) then p.level < level else p.level == level && p.entry == e
    decreases from
  {
    hide EntryOf, Large, Present;
    if from == level {
      WalkStep(mem, root, tables, level, w);
    } else {
      TablesAbove(mem, root, tables, w, level, from - 1);
      WalkReaches(mem, root, tables, level, w, from - 1);
    }
  }

  /** The page itself gets the new entry; the rights of the tables above stay. */
  lemma {:induction false} LeafWriteSelf(mem: Memory, root: nat, tables: map<Node, nat>, w: nat, e: nat, level: nat)
    requires Tree(mem, root, tables) && On(w, 1) in tables && e < TWO64 && On(w, level) in tables
    requires tables[On(w, 1)] < |mem| && level >= 1
    ensures var mem' := Store(mem, tables[On(w, 1)], Index(w, 1), e);
            Walk(mem', tables[On(w, level)], level, w) ==
                Walk(mem, tables[On(w, level)], level, w).(level := 1, entry := e)
    decreases level
  {
    var t, i := tables[On(w, 1)], Index(w, 1);
    var mem' := Store(mem, t, i, e);
    WalkStep(mem, root, tables, level, w);
    assert tables[On(w, level)] == t ==> level == 1;
    hide EntryOf, Store, Tree, Large, Present, User, Writable;
    StoredEntry(mem, t, i, e, tables[On(w, level)], Index(w, level));
    if level > 1 {
      TablesAbove(mem, root, tables, w, 1, level - 1);
      var below := On(w, level - 1);
      assert Linked(mem, tables, below) && Up(below) == On(w, level);
      LeafWriteSelf(mem, root, tables, w, e, level - 1);
    }
  }

  // Adding a table.

  /** Memory with an empty table in frame `f`, entered in the table of `level` on the way to `w`. */
  function Attach(mem: Memory, t: nat, i: nat, f: nat, flags: nat): (mem': Memory)
    requires t < |mem| && i < 512 && f < |mem| && f < 0x1_0000_0000 && t != f
    ensures |mem'| == |mem|
  {
    Store(mem[f := ZeroFrame()], t, i, TableEntry(f, flags))
  }

  lemma AttachedEntry(mem: Memory, t: nat, i: nat, f: nat, flags: nat, g: nat, j: nat)
    requires t < |mem| && i < 512 && f < |mem| && f < 0x1_0000_0000 && t != f && g < |mem| && j < 512
    ensures EntryOf(Attach(mem, t, i, f, flags)[g], j) ==
            if g == f then 0 else if g == t && j == i then TableEntry(f, flags) else EntryOf(mem[g], j)
  {
    StoredEntry(mem[f := ZeroFrame()], t, i, TableEntry(f, flags), g, j);
    ZeroEntry(j);
  }

  /** What is needed to enter an empty table in frame `f` below level `level` on the way to `w`. */
  ghost predicate CanAttach(mem: Memory, root: nat, tables: map<Node, nat>, w: nat, level: nat, f: nat) {
    && Tree(mem, root, tables) && 2 <= level <= 4 && On(w, level) in tables && tables[On(w, level)] < |mem|
    && f < |mem| && f < 0x1_0000_0000
    && (forall n :: n in tables ==> tables[n] != f)
    && !Present(EntryOf(mem[tables[On(w, level)]], Index(w, level)))
  }

  lemma NotThereYet(mem: Memory, root: nat, tables: map<Node, nat>, w: nat, level: nat, f: nat)
    requires CanAttach(mem, root, tables, w, level, f)
    ensures On(w, level - 1) !in tables
  {
    hide EntryOf, Large;
    var n := On(w, level - 1);
    OnDown(w, level);
    UpDown(n, On(w, level), Index(w, level));
    if n in tables && Linked(mem, tables, n) {
      assert false;
    }
  }

  lemma AttachLinked(mem: Memory, root: nat, tables: map<Node, nat>, w: nat, level: nat, f: nat, flags: nat, n: Node)
    requires CanAttach(mem, root, tables, w, level, f) && On(w, level - 1) !in tables
    requires n.level < 4 && (n in tables || n == On(w, level - 1))
    ensures Linked(Attach(mem, tables[On(w, level)], Index(w, level), f, flags), tables[On(w, level - 1) := f], n)
  {
    hide EntryOf, Attach, Prefix, TableEntry, Present, Large;
    var t, i := tables[On(w, level)], Index(w, level);
    OnDown(w, level);
    UpDown(n, On(w, level), i);
    if n in tables {
      assert Linked(mem, tables, n);
      AttachedEntry(mem, t, i, f, flags, tables[Up(n)], n.prefix % 512);
    } else {
      AttachedEntry(mem, t, i, f, flags, t, i);
    }
  }

  lemma AttachClosed(mem: Memory, root: nat, tables: map<Node, nat>, w: nat, level: nat, f: nat, flags: nat, n: Node,
                     k: nat)
    requires CanAttach(mem, root, tables, w, level, f) && On(w, level - 1) !in tables
    requires k < 512 && (n in tables || n == On(w, level - 1))
    ensures Closed(Attach(mem, tables[On(w, level)], Index(w, level), f, flags), tables[On(w, level - 1) := f], n, k)
  {
    hide EntryOf, Attach, Prefix, TableEntry, Large;
    var t, i := tables[On(w, level)], Index(w, level);
    OnDown(w, level);
    if n in tables {
      AttachedEntry(mem, t, i, f, flags, tables[n], k);
      assert Closed(mem, tables, n, k);
    } else {
      AttachedEntry(mem, t, i, f, flags, f, k);
    }
  }

  /** The tables stay a tree of distinct frames. */
  lemma AttachTree(mem: Memory, root: nat, tables: map<Node, nat>, w: nat, level: nat, f: nat, flags: nat)
    requires CanAttach(mem, root, tables, w, level, f)
    ensures Tree(Attach(mem, tables[On(w, level)], Index(w, level), f, flags), root, tables[On(w, level - 1) := f])
  {
    hide EntryOf, Attach, Prefix, Linked, Closed, Present;
    NotThereYet(mem, root, tables, w, level, f);
    var mem' := Attach(mem, tables[On(w, level)], Index(w, level), f, flags);
    var tables' := tables[On(w, level - 1) := f];
    forall n | n in tables' && n.level < 4 ensures Linked(mem', tables', n) {
      AttachLinked(mem, root, tables, w, level, f, flags, n);
    }
    forall n, k | n in tables' && 0 <= k < 512 ensures Closed(mem', tables', n, k) {
      AttachClosed(mem, root, tables, w, level, f, flags, n, k);
    }
  }

  /** Pages beyond the new table were unmapped and still are. */
  lemma {:induction false} AttachWalk(mem: Memory, root: nat, tables: map<Node, nat>, w: nat, level: nat, f: nat,
                                      flags: nat, x: nat, k: nat)
    requires CanAttach(mem, root, tables, w, level, f) && On(x, k) in tables && level <= k <= 4
    requires On(x, level - 1) == On(w, level - 1)
    ensures var p := Walk(mem, tables[On(x, k)], k, x);
            var p' := Walk(Attach(mem, tables[On(w, level)], Index(w, level), f, flags), tables[On(x, k)], k, x);
            !p.Mapped() && p.level == level && p' == Path(level - 1, 0, p.user && User(flags), p.writable)
    decreases k
  {
    hide EntryOf, Attach, Prefix, TableEntry, Large, User, Writable;
    var t, i := tables[On(w, level)], Index(w, level);
    OnSame(w, x, level);
    AttachedEntry(mem, t, i, f, flags, tables[On(x, k)], Index(x, k));
    if k == level {
      AttachedEntry(mem, t, i, f, flags, f, Index(x, level - 1));
    } else {
      TablesAbove(mem, root, tables, x, level, k - 1);
      AttachWalk(mem, root, tables, w, level, f, flags, x, k - 1);
    }
  }

  /** No other walk changes. */
  lemma AttachWalkOther(mem: Memory, root: nat, tables: map<Node, nat>, w: nat, level: nat, f: nat, flags: nat, x: nat)
    requires CanAttach(mem, root, tables, w, level, f) && x < PAGES && On(x, level - 1) != On(w, level - 1)
    ensures Walk(Attach(mem, tables[On(w, level)], Index(w, level), f, flags), root, 4, x) == Walk(mem, root, 4, x)
  {
    var t, i := tables[On(w, level)], Index(w, level);
    var mem' := Attach(mem, t, i, f, flags);
    OnRoot(x);
    OnSame(w, x, level);
    hide EntryOf, Attach, Prefix, TableEntry;
    forall j | 1 <= j <= 4 && On(x, j) in tables
      ensures tables[On(x, j)] < |mem|
      ensures EntryOf(mem'[tables[On(x, j)]], Index(x, j)) == EntryOf(mem[tables[On(x, j)]], Index(x, j))
    {
      AttachedEntry(mem, t, i, f, flags, tables[On(x, j)], Index(x, j));
    }
    WalkSame(mem, mem', root, tables, 4, x);
  }
}
