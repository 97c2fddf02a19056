/** The kernel heap of kernel/heap.c: headers linked through memory, first fit, splitting, coalescing, growth. */
module Heap {
  import opened Bytes
  import opened HeapList
  import opened HeapPages
  import Paging
  import PageTables
  import Pmm

  const HEAP_MAGIC: nat := 0x4845_4150

  /** The header in front of a block: `next` and `prev` are addresses, 0 for none. */
  datatype Header = Header(magic: nat, free: bool, size: nat, next: nat, prev: nat)

  /** Headers by address. Where none was written, memory reads as zeros. */
  type Memory = map<nat, Header>

  function At(mem: Memory, k: nat): Header {
    if k in mem then mem[k] else Header(0, false, 0, 0, 0)
  }

  /** 64-bit arithmetic. */
  function Wrap(n: nat): nat { n % TWO64 }

  lemma NoWrap(n: nat)
    requires n < TWO64
    ensures Wrap(n) == n
  {
  }

  /** What fits into the fields of a header. */
  predicate Spellable(h: Header) { h.magic < TWO32 && h.size < TWO64 && h.next < TWO64 && h.prev < TWO64 }

  /** What `kfree` takes for the header of an allocation. */
  predicate Used(h: Header) { h.magic == HEAP_MAGIC && !h.free }

  ghost function FirstAddr(list: seq<Block>, next: nat): nat {
    if list == [] then next else list[0].addr
  }

  ghost function LastAddr(list: seq<Block>, prev: nat): nat {
    if list == [] then prev else list[|list| - 1].addr
  }

  /** The headers in memory spell the list, doubly linked, between the neighbours `prev` and `next`. */
  ghost predicate Rep(mem: Memory, list: seq<Block>, prev: nat, next: nat)
    decreases |list|
  {
    if list == [] then true
    else
      var b := list[0];
      && b.addr in mem
      && mem[b.addr] == Header(HEAP_MAGIC, b.free, b.size, FirstAddr(list[1..], next), prev)
      && Rep(mem, list[1..], b.addr, next)
  }

  ghost function Addrs(list: seq<Block>): set<nat> {
    set i | 0 <= i < |list| :: list[i].addr
  }

  lemma {:induction false} RepConcat(mem: Memory, a: seq<Block>, b: seq<Block>, prev: nat, next: nat)
    ensures Rep(mem, a + b, prev, next) <==>
            Rep(mem, a, prev, FirstAddr(b, next)) && Rep(mem, b, LastAddr(a, prev), next)
    decreases |a|
  {
    if a == [] {
      assert a + b == b;
    } else {
      assert (a + b)[1..] == a[1..] + b;
      RepConcat(mem, a[1..], b, a[0].addr, next);
    }
  }

  lemma RepAround(mem: Memory, a: seq<Block>, m: seq<Block>, c: seq<Block>)
    requires m != []
    ensures Rep(mem, a + m + c, 0, 0) <==>
            && Rep(mem, a, 0, m[0].addr) && Rep(mem, m, LastAddr(a, 0), FirstAddr(c, 0))
            && Rep(mem, c, m[|m| - 1].addr, 0)
  {
    RepConcat(mem, a + m, c, 0, 0);
    RepConcat(mem, a, m, 0, FirstAddr(c, 0));
  }

  /** Only the headers of the list matter. */
  lemma {:induction false} RepFrame(mem: Memory, mem': Memory, list: seq<Block>, prev: nat, next: nat)
    requires Rep(mem, list, prev, next)
    requires forall a :: a in Addrs(list) && a in mem ==> a in mem' && mem'[a] == mem[a]
    ensures Rep(mem', list, prev, next)
    decreases |list|
  {
    if list != [] {
      assert list[0].addr in Addrs(list);
      forall a | a in Addrs(list[1..]) ensures a in Addrs(list) {
        var i :| 0 <= i < |list[1..]| && list[1..][i].addr == a;
        assert list[i + 1].addr == a;
      }
      RepFrame(mem, mem', list[1..], list[0].addr, next);
    }
  }

  /** Redirecting the back link of the first header. */
  lemma SetPrev(mem: Memory, list: seq<Block>, prev: nat, next: nat, prev': nat)
    requires list != [] && Rep(mem, list, prev, next) && list[0].addr !in Addrs(list[1..])
    ensures var x := list[0].addr;
            Rep(mem[x := mem[x].(prev := prev')], list, prev', next)
  {
    var x := list[0].addr;
    RepFrame(mem, mem[x := mem[x].(prev := prev')], list[1..], x, next);
  }

  /** The header of block `i`. */
  lemma RepAt(mem: Memory, list: seq<Block>, i: nat)
    requires Rep(mem, list, 0, 0) && i < |list|
    ensures list[i].addr in mem
    ensures mem[list[i].addr] ==
            Header(HEAP_MAGIC, list[i].free, list[i].size, FirstAddr(list[i + 1..], 0), LastAddr(list[..i], 0))
    ensures Rep(mem, list[i..], LastAddr(list[..i], 0), 0)
  {
    assert list == list[..i] + list[i..];
    RepConcat(mem, list[..i], list[i..], 0, 0);
    assert list[i..][1..] == list[i + 1..];
  }

  /** The same without slices. */
  lemma HeaderAt(mem: Memory, list: seq<Block>, i: nat)
    requires Rep(mem, list, 0, 0) && i < |list|
    ensures list[i].addr in mem
    ensures mem[list[i].addr] ==
            Header(HEAP_MAGIC, list[i].free, list[i].size, AddrOr0(list, i + 1), AddrOr0(list, i - 1))
  {
    RepAt(mem, list, i);
    if i + 1 < |list| {
      assert list[i + 1..][0] == list[i + 1];
    }
    if i > 0 {
      assert list[..i][i - 1] == list[i - 1];
    }
  }

  ghost function AddrOr0(list: seq<Block>, i: int): nat {
    if 0 <= i < |list| then list[i].addr else 0
  }

  /** The blocks are ordered and do not overlap, none is at address 0, and none reaches the end of the addresses. */
  ghost predicate Apart(list: seq<Block>) {
    && (forall i :: 0 <= i < |list| ==> list[i].addr != 0 && list[i].End() < TWO64)
    && (forall i, j :: 0 <= i < j < |list| ==> list[i].End() <= list[j].addr)
  }

  lemma LaidApart(list: seq<Block>, exact: bool, hi: nat)
    requires Laid(list, HEAP_START, false, exact, hi) && hi < TWO64
    ensures Apart(list)
  {
    hide Laid;
    forall i | 0 <= i < |list| ensures list[i].addr != 0 && list[i].End() < TWO64 {
      LaidAt(list, HEAP_START, false, exact, hi, i);
    }
    forall i, j | 0 <= i < j < |list| ensures list[i].End() <= list[j].addr {
      LaidOrder(list, HEAP_START, false, exact, hi, i, j);
    }
  }

  /** No header lies inside another block. */
  lemma InsideApart(a: seq<Block>, b: Block, c: seq<Block>, exact: bool, hi: nat, x: nat)
    requires Laid(a + [b] + c, HEAP_START, false, exact, hi) && b.addr < x < b.End()
    ensures x !in Addrs(a) && x !in Addrs(c)
  {
    var list := a + [b] + c;
    assert b == list[|a|];
    forall i | 0 <= i < |a| ensures a[i].addr != x {
      assert a[i] == list[i];
      LaidOrder(list, HEAP_START, false, exact, hi, i, |a|);
    }
    forall i | 0 <= i < |c| ensures c[i].addr != x {
      assert c[i] == list[|a| + 1 + i];
      LaidOrder(list, HEAP_START, false, exact, hi, |a|, |a| + 1 + i);
    }
  }

  lemma ApartAt(list: seq<Block>, i: nat)
    requires Apart(list) && i < |list|
    ensures list[i].addr != 0 && Wrap(list[i].End()) == list[i].End() < TWO64
  {
    NoWrap(list[i].End());
  }

  lemma ApartSplit(a: seq<Block>, m: seq<Block>, c: seq<Block>)
    requires Apart(a + m + c)
    ensures forall i :: 0 <= i < |m| ==> m[i].addr != 0 && m[i].addr !in Addrs(a) && m[i].addr !in Addrs(c)
    ensures forall i, j :: 0 <= i < j < |m| ==> m[i].addr != m[j].addr
    ensures c != [] ==> c[0].addr != 0 && c[0].addr !in Addrs(a) && c[0].addr !in Addrs(c[1..])
  {
    var list := a + m + c;
    assert forall i :: 0 <= i < |a| ==> a[i] == list[i];
    assert forall i :: 0 <= i < |m| ==> m[i] == list[|a| + i];
    assert forall i :: 0 <= i < |c| ==> c[i] == list[|a| + |m| + i];
    if c != [] {
      assert forall i :: 0 <= i < |c[1..]| ==> c[1..][i] == list[|a| + |m| + 1 + i];
    }
  }

  /** What follows a block that was replaced: its first header links back to `prev'` now. */
  lemma Relinked(mem: Memory, mem': Memory, c: seq<Block>, prev: nat, prev': nat)
    requires Rep(mem, c, prev, 0) && (c != [] ==> c[0].addr !in Addrs(c[1..]))
    requires forall k :: k in Addrs(c) && k in mem ==>
               k in mem' && mem'[k] == if k == c[0].addr then mem[k].(prev := prev') else mem[k]
    ensures Rep(mem', c, prev', 0)
  {
    if c != [] {
      assert c[0].addr in Addrs(c);
      var x := c[0].addr;
      SetPrev(mem, c, prev, 0, prev');
      RepFrame(mem[x := mem[x].(prev := prev')], mem', c, prev', 0);
    }
  }

  lemma RepTwo(mem: Memory, x: Block, y: Block, prev: nat, next: nat)
    requires x.addr in mem && mem[x.addr] == Header(HEAP_MAGIC, x.free, x.size, y.addr, prev)
    requires y.addr in mem && mem[y.addr] == Header(HEAP_MAGIC, y.free, y.size, next, x.addr)
    ensures Rep(mem, [x, y], prev, next)
  {
    assert [x, y][1..] == [y] && [y][1..] == [];
  }

  /** The three header writes of `split_block`. */
  function SplitMem(mem: Memory, blk: nat, size: nat): (r: Memory)
    requires blk in mem && mem[blk].size >= size + 32
    requires mem[blk].next != 0 ==> mem[blk].next in mem
  {
    var next, rest := mem[blk].next, blk + 32 + size;
    var m1 := mem[rest := Header(HEAP_MAGIC, true, mem[blk].size - size - 32, next, blk)];
    var m2 := if next != 0 then m1[next := m1[next].(prev := rest)] else m1;
    m2[blk := m2[blk].(next := rest, size := size)]
  }

  lemma SplitRep(mem: Memory, a: seq<Block>, b: Block, c: seq<Block>, size: nat, exact: bool, hi: nat)
    requires Laid(a + [b] + c, HEAP_START, false, exact, hi) && Rep(mem, a + [b] + c, 0, 0) && hi < TWO64
    requires b.size >= size + 32 + 16
    ensures b.addr in mem && mem[b.addr].size == b.size && mem[b.addr].next == FirstAddr(c, 0)
    ensures mem[b.addr].next != 0 ==> mem[b.addr].next in mem
    ensures |SplitOff(b, size)| == 2 && Rep(SplitMem(mem, b.addr, size), a + SplitOff(b, size) + c, 0, 0)
  {
    LaidApart(a + [b] + c, exact, hi);
    ApartSplit(a, [b], c);
    var rest := b.addr + 32 + size;
    InsideApart(a, b, c, exact, hi, rest);
    RepAround(mem, a, [b], c);
    assert [b][0] == b && [b][1..] == [];
    hide Laid, Apart;
    var parts, r := SplitOff(b, size), SplitMem(mem, b.addr, size);
    RepFrame(mem, r, a, 0, b.addr);
    Relinked(mem, r, c, b.addr, rest);
    var x, y := Block(b.addr, size, b.free), Block(rest, b.size - size - 32, true);
    RepTwo(r, x, y, LastAddr(a, 0), FirstAddr(c, 0));
    assert parts == [x, y];
    RepAround(r, a, parts, c);
  }

  /** The header writes that merge the block at `y` into the block at `x` before it. */
  function MergeMem(mem: Memory, x: nat, y: nat): (r: Memory) {
    var next := At(mem, y).next;
    var m1 := mem[x := At(mem, x).(size := Wrap(At(mem, x).size + 32 + At(mem, y).size), next := next)];
    if next != 0 then m1[next := At(m1, next).(prev := x)] else m1
  }

  lemma MergeRep(mem: Memory, a: seq<Block>, x: Block, y: Block, c: seq<Block>)
    requires Apart(a + [x, y] + c) && Rep(mem, a + [x, y] + c, 0, 0)
    ensures x.addr in mem && y.addr in mem && mem[y.addr].next == FirstAddr(c, 0)
    ensures mem[y.addr].next != 0 ==> mem[y.addr].next in mem
    ensures Rep(MergeMem(mem, x.addr, y.addr), a + [Merged(x, y)] + c, 0, 0)
  {
    hide Apart, Wrap;
    var m := [x, y];
    MergedFits(a, x, y, c);
    ApartSplit(a, m, c);
    RepAround(mem, a, m, c);
    assert m[1..] == [y] && m[1..][1..] == [] && m[0] == x && m[1] == y;
    var r := MergeMem(mem, x.addr, y.addr);
    RepFrame(mem, r, a, 0, x.addr);
    Relinked(mem, r, c, y.addr, x.addr);
    var w := [Merged(x, y)];
    assert w[1..] == [];
    RepAround(r, a, w, c);
  }

  lemma MergedFits(a: seq<Block>, x: Block, y: Block, c: seq<Block>)
    requires Apart(a + [x, y] + c)
    ensures Wrap(x.size + 32 + y.size) == x.size + 32 + y.size
  {
    var list := a + [x, y] + c;
    assert x == list[|a|] && y == list[|a| + 1];
    NoWrap(x.size + 32 + y.size);
  }

  /** A change of one block's status. */
  lemma MarkRep(mem: Memory, a: seq<Block>, b: Block, c: seq<Block>, free: bool)
    requires Apart(a + [b] + c) && Rep(mem, a + [b] + c, 0, 0)
    ensures b.addr in mem
    ensures Rep(mem[b.addr := mem[b.addr].(free := free)], a + [b.(free := free)] + c, 0, 0)
  {
    ApartSplit(a, [b], c);
    RepAround(mem, a, [b], c);
    assert [b][0] == b && [b][1..] == [];
    var r := mem[b.addr := mem[b.addr].(free := free)];
    RepFrame(mem, r, a, 0, b.addr);
    RepFrame(mem, r, c, b.addr, 0);
    var w := [b.(free := free)];
    assert w[1..] == [];
    RepAround(r, a, w, c);
  }

  /** The header of the new pages written and linked behind the last block. */
  function AppendMem(mem: Memory, tail: nat, start: nat, size: nat): (r: Memory)
    requires tail != 0 ==> tail in mem
  {
    var m1 := mem[start := Header(HEAP_MAGIC, true, size, 0, tail)];
    if tail != 0 then m1[tail := m1[tail].(next := start)] else m1
  }

  lemma AppendRep(mem: Memory, list: seq<Block>, b: Block)
    requires Apart(list + [b]) && Rep(mem, list, 0, 0) && b.free
    ensures LastAddr(list, 0) != 0 ==> LastAddr(list, 0) in mem
    ensures Rep(AppendMem(mem, LastAddr(list, 0), b.addr, b.size), list + [b], 0, 0)
  {
    var tail := LastAddr(list, 0);
    if list != [] {
      RepAt(mem, list, |list| - 1);
    }
    var r := AppendMem(mem, tail, b.addr, b.size);
    if list == [] {
      assert [b][1..] == [] && list + [b] == [b];
    } else {
      var a, l := list[..|list| - 1], list[|list| - 1];
      assert list + [b] == a + [l, b] + [] && list == a + [l] + [];
      ApartSplit(a, [l, b], []);
      assert [l, b][0] == l && [l, b][1] == b;
      RepAround(mem, a, [l], []);
      assert [l][1..] == [] && [l][0] == l;
      RepFrame(mem, r, a, 0, l.addr);
      RepTwo(r, l, b, LastAddr(a, 0), 0);
      RepAround(r, a, [l, b], []);
    }
  }

  /**
   * No header off the list looks used. Those left over in merged blocks are marked free, which is what makes
   * `kfree` refuse them; bytes a program writes may spell any header.
   */
  ghost predicate StaleFree(mem: Memory, list: seq<Block>) {
    forall k :: k in mem && k !in Addrs(list) ==> !Used(mem[k])
  }

  // What `kfree` does to memory and to the end of the list, whatever header it is given.

  datatype Ends = Ends(mem: Memory, tail: nat)

  function MergeEnds(e: Ends, x: nat, y: nat): Ends {
    Ends(MergeMem(e.mem, x, y), if At(e.mem, y).next == 0 then x else e.tail)
  }

  /** The guard of the first merge: the block behind is free and adjacent. */
  predicate NextGuard(mem: Memory, blk: nat) {
    var next := At(mem, blk).next;
    next != 0 && At(mem, next).free && next == Wrap(blk + 32 + At(mem, blk).size)
  }

  /** The guard of the second merge: the block before is free and adjacent. */
  predicate PrevGuard(mem: Memory, blk: nat) {
    var prev := At(mem, blk).prev;
    prev != 0 && At(mem, prev).free && blk == Wrap(prev + 32 + At(mem, prev).size)
  }

  function Marked(mem: Memory, blk: nat): Memory { mem[blk := At(mem, blk).(free := true)] }

  function AfterNext(e: Ends, blk: nat): Ends {
    if NextGuard(e.mem, blk) then MergeEnds(e, blk, At(e.mem, blk).next) else e
  }

  function AfterPrev(e: Ends, blk: nat): Ends {
    if PrevGuard(e.mem, blk) then MergeEnds(e, At(e.mem, blk).prev, blk) else e
  }

  function Freed(e: Ends, blk: nat): Ends {
    AfterPrev(AfterNext(Ends(Marked(e.mem, blk), e.tail), blk), blk)
  }

  /**
   * The merges of a header off the list leave the list alone. Merged into a block, it must add nothing to the size,
   * by wrapping, and be linked to what the block is linked to. Else what is linked behind a merged header is neither
   * nothing, which would move the tail, nor a block.
   */
  ghost predicate Spares(mem: Memory, list: seq<Block>, blk: nat) {
    var m := Marked(mem, blk);
    var m' := AfterNext(Ends(m, 0), blk).mem;
    var h := At(m', blk);
    if !PrevGuard(m', blk) then NextGuard(m, blk) ==> Outside(list, h.next)
    else if h.prev in Addrs(list) then
      Wrap(At(m, h.prev).size + 32 + h.size) == At(m, h.prev).size && At(m, h.prev).next == h.next
    else Outside(list, h.next)
  }

  ghost predicate Outside(list: seq<Block>, k: nat) { k != 0 && k !in Addrs(list) }

  /** `kfree` of a pointer that is no allocation leaves the list alone. */
  ghost predicate Harmless(mem: Memory, list: seq<Block>, ptr: nat) {
    ptr == 0 || !Used(At(mem, HeaderOf(ptr))) || Spares(mem, list, HeaderOf(ptr))
  }

  /** Where `kfree` looks for the header of `ptr`. */
  function HeaderOf(ptr: nat): nat { Wrap(ptr + TWO64 - 32) }

  lemma HeaderBefore(ptr: nat)
    requires 32 <= ptr < TWO64
    ensures HeaderOf(ptr) == ptr - 32
  {
  }

  /** Only the pointer behind a block has its header there. */
  lemma HeaderBack(ptr: nat, blk: nat)
    requires 0 < ptr < TWO64 && HeaderOf(ptr) == blk && blk + 32 < TWO64
    ensures ptr == blk + 32
  {
    if ptr < 32 {
      NoWrap(ptr + TWO64 - 32);
    } else {
      HeaderBefore(ptr);
    }
  }

  /** Memory represents the list, ends included. */
  ghost predicate Intact(e: Ends, list: seq<Block>) {
    Rep(e.mem, list, 0, 0) && e.tail == LastAddr(list, 0)
  }

  /** A list is represented by its headers and by nothing else. */
  lemma SameHeaders(mem: Memory, mem': Memory, list: seq<Block>)
    requires Rep(mem, list, 0, 0)
    ensures forall k :: k in Addrs(list) ==> k in mem && (mem[k].prev == 0 || mem[k].prev in Addrs(list))
    ensures Rep(mem', list, 0, 0) <==> forall k :: k in Addrs(list) ==> k in mem' && mem'[k] == mem[k]
  {
    hide Rep;
    forall k | k in Addrs(list)
      ensures k in mem && (mem[k].prev == 0 || mem[k].prev in Addrs(list))
      ensures Rep(mem', list, 0, 0) ==> k in mem' && mem'[k] == mem[k]
    {
      var i := BlockIndex(list, k);
      HeaderAt(mem, list, i);
      if Rep(mem', list, 0, 0) {
        HeaderAt(mem', list, i);
      }
      if i > 0 {
        assert list[i - 1].addr in Addrs(list);
      }
    }
    if forall k :: k in Addrs(list) ==> k in mem' && mem'[k] == mem[k] {
      RepFrame(mem, mem', list, 0, 0);
    }
  }

  /** What is linked behind a block. */
  lemma BehindBlock(mem: Memory, list: seq<Block>, k: nat)
    requires Rep(mem, list, 0, 0) && Apart(list) && k in Addrs(list)
    ensures k in mem && mem[k].next != k && k != 0
    ensures mem[k].next == 0 ==> k == LastAddr(list, 0)
    ensures mem[k].next != 0 ==> mem[k].next in Addrs(list) && At(mem, mem[k].next).prev == k
  {
    var i := BlockIndex(list, k);
    HeaderAt(mem, list, i);
    if i + 1 < |list| {
      HeaderAt(mem, list, i + 1);
      assert list[i + 1].addr in Addrs(list);
    }
    hide Rep;
  }

  /** What a merge writes. */
  lemma MergeWrites(mem: Memory, x: nat, y: nat, k: nat)
    ensures var next, m := At(mem, y).next, MergeMem(mem, x, y);
            && At(m, k).next == (if k == x then next else At(mem, k).next)
            && At(m, k).size == (if k == x then Wrap(At(mem, x).size + 32 + At(mem, y).size) else At(mem, k).size)
            && At(m, k).prev == (if k == next && next != 0 then x else At(mem, k).prev)
            && At(m, k).free == At(mem, k).free && At(m, k).magic == At(mem, k).magic
            && (k in mem ==> k in m) && (k in m ==> k in mem || k == x || (k == next && next != 0))
  {
    hide Wrap;
  }

  /** What `kfree` leaves at another address `k`, in terms of the header after the first merge. */
  lemma FreedAt(e: Ends, blk: nat, k: nat)
    requires k != blk
    ensures var m := Marked(e.mem, blk);
            var m' := AfterNext(Ends(m, e.tail), blk).mem;
            var f, h, old_ := Freed(e, blk), At(m', blk), At(e.mem, k);
            var merged := PrevGuard(m', blk) && k == h.prev;
            && At(f.mem, k).size == (if merged then Wrap(old_.size + 32 + h.size) else old_.size)
            && At(f.mem, k).next == (if merged then h.next else old_.next)
            && At(f.mem, k).prev ==
               (if k == h.next && k != 0 && PrevGuard(m', blk) then h.prev
                else if k == h.next && k != 0 && NextGuard(m, blk) then blk
                else old_.prev)
            && At(f.mem, k).free == old_.free && At(f.mem, k).magic == old_.magic && (k in e.mem ==> k in f.mem)
            && f.tail == (if h.next == 0 && PrevGuard(m', blk) then h.prev
                          else if h.next == 0 && NextGuard(m, blk) then blk
                          else e.tail)
  {
    hide MergeMem, Wrap;
    var m := Marked(e.mem, blk);
    var m' := AfterNext(Ends(m, e.tail), blk).mem;
    MergeWrites(m, blk, At(m, blk).next, blk);
    MergeWrites(m, blk, At(m, blk).next, k);
    MergeWrites(m', At(m', blk).prev, blk, k);
  }

  lemma FreedNull(e: Ends, blk: nat)
    requires 0 !in e.mem && blk != 0
    ensures 0 !in Freed(e, blk).mem
  {
    hide MergeMem, Wrap;
    var m := Marked(e.mem, blk);
    var m' := AfterNext(Ends(m, e.tail), blk).mem;
    MergeWrites(m, blk, At(m, blk).next, 0);
    MergeWrites(m', At(m', blk).prev, blk, 0);
  }

  /** Freeing behind a header off the list keeps the list exactly when `Spares` says so. */
  lemma FreedOffList(mem: Memory, tail: nat, list: seq<Block>, blk: nat)
    requires Intact(Ends(mem, tail), list) && Apart(list) && blk !in Addrs(list) && blk != 0
    ensures Intact(Freed(Ends(mem, tail), blk), list) <==> Spares(mem, list, blk)
    ensures 0 !in mem ==> 0 !in Freed(Ends(mem, tail), blk).mem
  {
    hide Rep, Addrs, Apart, Wrap, LastAddr, Freed, NextGuard, PrevGuard, AfterNext;
    var e := Ends(mem, tail);
    var m := Marked(mem, blk);
    var h := At(AfterNext(Ends(m, tail), blk).mem, blk);
    SameHeaders(mem, Freed(e, blk).mem, list);
    LastOnList(list);
    if 0 !in mem {
      FreedNull(e, blk);
    }
    AfterNextMem(m, tail, blk);
    if PrevGuard(AfterNext(Ends(m, tail), blk).mem, blk) {
      PrevGuardNull(AfterNext(Ends(m, tail), blk).mem, blk);
    }
    forall k | k in Addrs(list) ensures k != 0 && k != blk {
      BehindBlock(mem, list, k);
    }
    FreedAt(e, blk, if h.prev != blk then h.prev else blk + 1);
    FreedAt(e, blk, if h.next != blk then h.next else blk + 1);
    if h.prev in Addrs(list) {
      BehindBlock(mem, list, h.prev);
    }
    forall k | k in Addrs(list) && k != h.prev && k != h.next
      ensures k in Freed(e, blk).mem && Freed(e, blk).mem[k] == mem[k]
    {
      FreedAt(e, blk, k);
    }
  }

  lemma PrevGuardNull(mem: Memory, blk: nat)
    requires PrevGuard(mem, blk)
    ensures At(mem, blk).prev != 0
  {
  }

  lemma AfterNextMem(m: Memory, tail: nat, blk: nat)
    ensures AfterNext(Ends(m, tail), blk).mem == AfterNext(Ends(m, 0), blk).mem
  {
  }

  /** The first merge on the list. */
  lemma NextStep(e: Ends, list: seq<Block>, i: nat)
    requires Intact(e, list) && Apart(list) && i < |list| && list[i].free
    ensures var e' := AfterNext(e, list[i].addr);
            && Intact(e', Joined(list, i)) && Apart(Joined(list, i))
            && FirstAddr(Joined(list, i), 0) == FirstAddr(list, 0)
            && (StaleFree(e.mem, list) ==> StaleFree(e'.mem, Joined(list, i))) && (0 !in e.mem ==> 0 !in e'.mem)
  {
    hide Rep, StaleFree, Addrs, FirstAddr, LastAddr, MergeMem, Apart, Wrap;
    HeaderAt(e.mem, list, i);
    ApartAt(list, i);
    if i + 1 < |list| {
      ApartAt(list, i + 1);
    }
    if i + 1 < |list| {
      HeaderAt(e.mem, list, i + 1);
      if Joinable(list, i) {
        MergeFacts(e.mem, list, i);
        MergeNull(e.mem, list[i].addr, list[i + 1].addr);
      }
    }
  }

  /** The second merge on the list. */
  lemma PrevStep(e: Ends, list: seq<Block>, i: nat)
    requires Intact(e, list) && Apart(list) && i < |list| && list[i].free
    ensures var e', list' := AfterPrev(e, list[i].addr), if i == 0 then list else Joined(list, i - 1);
            && Intact(e', list') && FirstAddr(list', 0) == FirstAddr(list, 0)
            && (StaleFree(e.mem, list) ==> StaleFree(e'.mem, list')) && (0 !in e.mem ==> 0 !in e'.mem)
  {
    hide Rep, StaleFree, Addrs, FirstAddr, LastAddr, MergeMem, Apart, Wrap;
    HeaderAt(e.mem, list, i);
    ApartAt(list, i);
    if i > 0 {
      ApartAt(list, i - 1);
    }
    if i > 0 {
      HeaderAt(e.mem, list, i - 1);
      if Joinable(list, i - 1) {
        MergeFacts(e.mem, list, i - 1);
        MergeNull(e.mem, list[i - 1].addr, list[i].addr);
      }
    }
  }

  lemma MergeNull(mem: Memory, x: nat, y: nat)
    requires 0 !in mem ==> x != 0
    ensures 0 !in mem ==> 0 !in MergeMem(mem, x, y)
  {
  }

  /** Freeing a block of the list represents the list `Release` describes. */
  lemma FreedOnList(mem: Memory, tail: nat, list: seq<Block>, i: nat)
    requires Intact(Ends(mem, tail), list) && Apart(list) && i < |list|
    ensures var e := Freed(Ends(mem, tail), list[i].addr);
            && Intact(e, Release(list, i)) && FirstAddr(Release(list, i), 0) == FirstAddr(list, 0)
            && (StaleFree(mem, list) ==> StaleFree(e.mem, Release(list, i))) && (0 !in mem ==> 0 !in e.mem)
  {
    var blk := list[i].addr;
    assert blk != 0;
    hide Rep, StaleFree, Addrs, FirstAddr, LastAddr, Apart, Release, Joined, NextGuard, PrevGuard, MergeEnds;
    MarkFacts(mem, list, i, true);
    ReleaseSteps(list, i);
    var l1 := list[i := list[i].(free := true)];
    var e1 := Ends(Marked(mem, blk), tail);
    NextStep(e1, l1, i);
    JoinedKeeps(l1, i);
    PrevStep(AfterNext(e1, blk), Joined(l1, i), i);
  }

  lemma NotStale(mem: Memory, list: seq<Block>, blk: nat)
    requires Used(At(mem, blk)) && blk !in Addrs(list)
    ensures !StaleFree(mem, list)
  {
  }

  /**
   * A header forged in an allocation in front of the last free block: `kfree` behind it makes the forged header the
   * tail of the list.
   */
  lemma ForgedHeader() returns (list: seq<Block>, mem: Memory, forged: nat)
    ensures Laid(list, HEAP_START, false, true, HEAP_START + 4096) && Intact(Ends(mem, LastAddr(list, 0)), list)
    ensures forged + 32 !in Live(list) && exists p :: p in Live(list) && p <= forged && forged + 32 <= p + Live(list)[p]
    ensures !Harmless(mem, list, forged + 32)
    ensures Freed(Ends(mem, LastAddr(list, 0)), forged).tail == forged
  {
    var a := HEAP_START;
    var x, y := Block(a, 64, false), Block(a + 96, 3968, true);
    list, forged := [x, y], a + 32;
    mem := map[a := Header(HEAP_MAGIC, false, 64, a + 96, 0), a + 96 := Header(HEAP_MAGIC, true, 3968, 0, a),
               a + 32 := Header(HEAP_MAGIC, false, 32, a + 96, 0)];
    RepTwo(mem, x, y, 0, 0);
    assert HeaderOf(forged + 32) == forged;
    assert list[1..] == [y] && list[1..][1..] == [];
    assert Live([y]) == map[] by { assert [y][1..] == []; }
    assert a + 32 in Live(list) && Live(list)[a + 32] == 64;
  }

  /**
   * A header whose size wraps around to the first block: `kfree` behind it makes the used block's back link point
   * into its own payload.
   */
  lemma WrappedHeader() returns (list: seq<Block>, mem: Memory, forged: nat)
    ensures Laid(list, HEAP_START, false, true, HEAP_START + 4096) && Intact(Ends(mem, LastAddr(list, 0)), list)
    ensures forged in mem && Spellable(mem[forged]) && forged + 32 !in Live(list)
    ensures exists p :: p in Live(list) && p <= forged && forged + 32 <= p + Live(list)[p]
    ensures !Harmless(mem, list, forged + 32)
    ensures |list| == 2 && At(Freed(Ends(mem, LastAddr(list, 0)), forged).mem, list[1].addr).prev == forged
  {
    var a := HEAP_START;
    var x, y := Block(a, 64, true), Block(a + 96, 3968, false);
    list, forged := [x, y], a + 128;
    mem := map[a := Header(HEAP_MAGIC, true, 64, a + 96, 0), a + 96 := Header(HEAP_MAGIC, false, 3968, 0, a),
               a + 128 := Header(HEAP_MAGIC, false, TWO64 - 160, a, 0)];
    RepTwo(mem, x, y, 0, 0);
    assert list[1..] == [y] && list[1..][1..] == [];
    assert Live([y]) == map[a + 128 := 3968] by { assert [y][1..] == []; }
    assert a + 128 in Live(list) && Live(list)[a + 128] == 3968;
    assert list[1].addr in Addrs(list);
    assert HeaderOf(forged + 32) == forged;
  }

  lemma LastOnList(list: seq<Block>)
    ensures list != [] ==> LastAddr(list, 0) in Addrs(list)
    ensures list == [] ==> LastAddr(list, 0) == 0
  {
  }

  /** The two ends of the list after its middle was replaced. */
  lemma EndsOf(a: seq<Block>, m: seq<Block>, m': seq<Block>, c: seq<Block>)
    requires m != [] && m' != [] && m[0].addr == m'[0].addr
    ensures FirstAddr(a + m' + c, 0) == FirstAddr(a + m + c, 0)
    ensures LastAddr(a + m' + c, 0) == if c == [] then m'[|m'| - 1].addr else LastAddr(a + m + c, 0)
  {
  }

  /** How `heap_expand` ends: 1, 0, or a page fault on the header of the new block. */
  datatype Growth = Grown | NoFrames | HeaderFault

  /** The pages `heap_expand` maps for a block of `needed` bytes. */
  function PagesFor(needed: nat): (n: nat)
    ensures n >= 1
  {
    (needed + 32 + 4095) / 4096
  }

  /** Heap addresses lie in the last 512 MB of page numbers but some, and do not wrap. */
  lemma HeapPageOf(virt: nat, i: nat)
    requires HEAP_START <= virt && virt + 4096 * i <= HEAP_CAP && virt % 4096 == 0
    ensures Paging.PageOf(virt) + i < PageTables.PAGES && Paging.PageOf(virt + 4096 * i) == Paging.PageOf(virt) + i
    ensures Paging.PageOf(HEAP_START) <= Paging.PageOf(virt) <= Paging.PageOf(virt) + i <= Paging.PageOf(HEAP_CAP)
  {
    var q := virt / 4096;
    assert virt == 4096 * q && (virt + 4096 * i) / 4096 == q + i;
    assert 0xF_FFFF_FFF8_1000 <= q <= q + i <= 0xF_FFFF_FFFA_1000;
    HighPage(q);
    HighPage(q + i);
    HighPage(0xF_FFFF_FFF8_1000);
    HighPage(0xF_FFFF_FFFA_1000);
  }

  lemma HighPage(q: nat)
    requires 0xF_FFF0_0000_0000 <= q < 0x10_0000_0000_0000
    ensures q % PageTables.PAGES == q - 0xF_FFF0_0000_0000 && (4096 * q) / 4096 == q
  {
  }

  lemma RegionUnmapped(mem: PageTables.Memory, root: nat, limit: nat, n: nat)
    requires HEAP_START <= limit && limit + 4096 * n <= HEAP_CAP && limit % 4096 == 0
    requires Unmapped(mem, root, Paging.PageOf(limit), Paging.PageOf(HEAP_CAP))
    ensures Unmapped(mem, root, Paging.PageOf(limit), Paging.PageOf(limit) + n)
  {
    HeapPageOf(limit, n);
  }

  /** Behind the new limit nothing is mapped either, and what was mapped before it still is. */
  lemma RegionLeft(mem: PageTables.Memory, mem': PageTables.Memory, root: nat, start: nat, mapped: nat)
    requires HEAP_START <= start && start + mapped <= HEAP_CAP && start % 4096 == 0 && mapped % 4096 == 0
    requires Unmapped(mem, root, Paging.PageOf(start), Paging.PageOf(HEAP_CAP))
    requires Around(mem, mem', root, Paging.PageOf(start), Paging.PageOf(start) + mapped / 4096)
    ensures Unmapped(mem', root, Paging.PageOf(start + mapped), Paging.PageOf(HEAP_CAP))
    ensures Backed(mem', root, Paging.PageOf(HEAP_START), Paging.PageOf(start + mapped)) <==>
            && Backed(mem, root, Paging.PageOf(HEAP_START), Paging.PageOf(start))
            && Backed(mem', root, Paging.PageOf(start), Paging.PageOf(start + mapped))
  {
    hide PageTables.Walk, Paging.PageOf;
    HeapPageOf(start, mapped / 4096);
    HeapPageOf(start + mapped, 0);
    assert 4096 * (mapped / 4096) == mapped;
    forall w: nat | Paging.PageOf(HEAP_START) <= w < Paging.PageOf(start)
      ensures HeapPage(PageTables.Walk(mem', root, 4, w)) <==> HeapPage(PageTables.Walk(mem, root, 4, w))
    {
    }
  }

  /** The page of the new header after the loop went through `n` pages. */
  lemma StartPage(mem: PageTables.Memory, mem': PageTables.Memory, root: nat, lo: nat, n: nat)
    requires n >= 1 && lo < PageTables.PAGES && Around(mem, mem', root, lo, lo + n)
    requires Backed(mem', root, lo, lo + n - 1)
    requires Backed(mem', root, lo, lo + n) || !PageTables.Walk(mem', root, 4, lo + n - 1).Mapped()
    ensures var p := PageTables.Walk(mem', root, 4, lo);
            && p.writable == PageTables.Walk(mem, root, 4, lo).writable
            && (p.Mapped() ==> PageTables.Writable(p.entry))
            && (p.Mapped() <==> n > 1 || Backed(mem', root, lo, lo + n))
  {
    hide PageTables.Walk;
  }

  class KernelHeap {
    var mem: Memory
    var head: nat
    var tail: nat
    var limit: nat

    /** The blocks in address order. */
    ghost var list: seq<Block>
    /** No expansion has failed part-way. */
    ghost var exact: bool

    /** No program has written bytes that look like a used header. */
    ghost var genuine: bool

    ghost predicate Linked()
      reads this
    {
      && Rep(mem, list, 0, 0) && head == FirstAddr(list, 0) && tail == LastAddr(list, 0) && 0 !in mem
      && (genuine ==> StaleFree(mem, list))
    }

    ghost predicate Valid()
      reads this
    {
      && HEAP_START <= limit <= HEAP_CAP && limit % 4096 == 0
      && Laid(list, HEAP_START, false, exact, limit)
      && Linked()
    }

    /** The allocations. */
    ghost function Allocated(): map<nat, nat>
      reads this
    {
      Live(list)
    }

    /** The search of `kmalloc`: the first free block that is large enough, 0 if there is none. */
    method FirstFit(size: nat) returns (blk: nat, ghost i: nat)
      requires Valid()
      ensures blk != 0 ==> i < |list| && blk == list[i].addr && list[i].free && list[i].size >= size
      ensures forall j :: 0 <= j < i && j < |list| ==> !(list[j].free && list[j].size >= size)
      ensures blk == 0 ==> i == |list|
      ensures blk == 0 <==> NoFit(list, size)
    {
      LaidApart(list, exact, limit);
      hide Laid, Rep, NoFit;
      blk := head;
      i := 0;
      assert list[0..] == list;
      while blk != 0
        invariant i <= |list| && blk == FirstAddr(list[i..], 0)
        invariant forall j :: 0 <= j < i ==> !(list[j].free && list[j].size >= size)
        decreases |list| - i
      {
        RepAt(mem, list, i);
        if mem[blk].free && mem[blk].size >= size {
          SomeFits(list, size, i);
          return;
        }
        blk := mem[blk].next;
        i := i + 1;
      }
      NoneFits(list, size);
    }

    /** The header writes of `split_block`. */
    method WriteSplit(blk: nat, size: nat)
      requires blk in mem && mem[blk].size >= size + 32 && (mem[blk].next != 0 ==> mem[blk].next in mem)
      modifies this`mem, this`tail
      ensures mem == SplitMem(old(mem), blk, size)
      ensures tail == if old(mem)[blk].next == 0 then blk + 32 + size else old(tail)
    {
      var next, rest := mem[blk].next, blk + 32 + size;
      mem := mem[rest := Header(HEAP_MAGIC, true, mem[blk].size - size - 32, next, blk)];
      if next != 0 {
        mem := mem[next := mem[next].(prev := rest)];
      } else {
        tail := rest;
      }
      mem := mem[blk := mem[blk].(next := rest, size := size)];
    }

    /** `split_block` on the block about to be handed out. */
    method SplitBlock(blk: nat, size: nat, ghost i: nat)
      requires Valid() && i < |list| && blk == list[i].addr && list[i].size >= size
      modifies this`mem, this`tail, this`list
      ensures list == old(list)[..i] + SplitOff(old(list)[i], size) + old(list)[i + 1..]
      ensures Linked()
    {
      RepAt(mem, list, i);
      hide Laid, Rep, StaleFree, SplitMem, SplitOff, FirstAddr, LastAddr;
      if mem[blk].size < size + 32 + 16 {
        assert list == list[..i] + [list[i]] + list[i + 1..]
               && SplitOff(list[i], size) == [list[i]] by { Unsplit(list, i, size); }
        return;
      }
      SplitFacts(mem, list, i, size, exact, limit);
      WriteSplit(blk, size);
      list := list[..i] + SplitOff(list[i], size) + list[i + 1..];
    }

    /** The header writes that merge the block at `y` into the block at `x` before it. */
    method WriteMerge(x: nat, y: nat)
      modifies this`mem, this`tail
      ensures Ends(mem, tail) == MergeEnds(Ends(old(mem), old(tail)), x, y)
    {
      var next := At(mem, y).next;
      mem := mem[x := At(mem, x).(size := Wrap(At(mem, x).size + 32 + At(mem, y).size), next := next)];
      if next != 0 {
        mem := mem[next := At(mem, next).(prev := x)];
      } else {
        tail := x;
      }
    }

    /**
     * `kfree`. A live allocation goes, and no other moves, shrinks or goes. Any other pointer leaves the list as
     * it is exactly when `Harmless` says so, and changes nothing at all while no program has forged a header.
     */
    method Kfree(ptr: nat)
      requires Valid() && ptr < TWO64
      modifies this`mem, this`tail, this`list
      ensures ptr in old(Allocated()) ==> Valid() && Allocated() == old(Allocated()) - {ptr}
      ensures ptr !in old(Allocated()) ==> list == old(list) && (Valid() <==> Harmless(old(mem), old(list), ptr))
      ensures genuine && ptr !in old(Allocated()) ==> Valid() && mem == old(mem)
    {
      hide Laid, Rep, Live, Addrs, Release, Apart, StaleFree, FirstAddr, LastAddr, Spares, Freed, HeaderOf;
      NotAllocated(ptr);
      LaidApart(list, exact, limit);
      if ptr == 0 {
        return;
      }
      var blk := HeaderOf(ptr);
      if At(mem, blk).magic != HEAP_MAGIC {
        return;
      }
      if At(mem, blk).free {
        return;
      }
      if blk in Addrs(list) {
        ghost var i := BlockIndex(list, blk);
        HeaderAt(mem, list, i);
        ApartAt(list, i);
        HeaderBack(ptr, blk);
        LiveBlock(list, exact, limit, i);
        ReleaseEffect(list, exact, limit, i);
        FreedOnList(mem, tail, list, i);
        list := Release(list, i);
      } else {
        FreedOffList(mem, tail, list, blk);
        NotStale(mem, list, blk);
      }
      FreeHeader(blk);
    }

    /** The part of `kfree` behind its checks. */
    method FreeHeader(blk: nat)
      modifies this`mem, this`tail
      ensures Ends(mem, tail) == Freed(Ends(old(mem), old(tail)), blk)
    {
      mem := mem[blk := At(mem, blk).(free := true)];
      var next := At(mem, blk).next;
      if next != 0 && At(mem, next).free && next == Wrap(blk + 32 + At(mem, blk).size) {
        WriteMerge(blk, next);
      }
      var prev := At(mem, blk).prev;
      if prev != 0 && At(mem, prev).free && blk == Wrap(prev + 32 + At(mem, prev).size) {
        WriteMerge(prev, blk);
      }
    }

    /** A pointer without a used header in front of it is no allocation. */
    lemma NotAllocated(ptr: nat)
      requires Valid()
      ensures ptr in Allocated() ==> ptr >= 32 && HeaderOf(ptr) == ptr - 32
      ensures ptr in Allocated() ==> Used(At(mem, ptr - 32)) && ptr - 32 in Addrs(list)
      ensures ptr !in Allocated() ==> Allocated() - {ptr} == Allocated()
    {
      if ptr in Allocated() {
        var i := LiveIndex(list, ptr);
        HeaderAt(mem, list, i);
        LaidAt(list, HEAP_START, false, exact, limit, i);
        HeaderBefore(ptr);
      }
    }

    /** Nothing is mapped behind the heap, and the frames there are fit behind it. */
    ghost predicate Room(vm: Paging.AddressSpace)
      reads `limit, vm, vm.pmm, vm.pmm.bitmap
    {
      && vm.Valid() && HEAP_START <= limit && limit + 4096 * |vm.pmm.Free()| <= HEAP_CAP
      && Unmapped(vm.mem, vm.root, Paging.PageOf(limit), Paging.PageOf(HEAP_CAP))
    }

    /** Every page of the heap is mapped. */
    ghost predicate AllBacked(vm: Paging.AddressSpace)
      reads `limit, vm`mem
    {
      Backed(vm.mem, vm.root, Paging.PageOf(HEAP_START), Paging.PageOf(limit))
    }

    /** The frames that mapping `n` pages behind the heap takes, tables included. */
    ghost function Cost(vm: Paging.AddressSpace, n: nat): nat
      reads `limit, vm`tables
    {
      FramesFor(vm.tables.Keys, Paging.PageOf(limit), Paging.PageOf(limit) + n)
    }

    /** The frames end before the last page for `needed` bytes is taken. */
    ghost predicate Starved(vm: Paging.AddressSpace, needed: nat)
      requires vm.pmm.Ready()
      reads `limit, vm, vm.pmm, vm.pmm.bitmap
    {
      |vm.pmm.Free()| <= Cost(vm, PagesFor(needed) - 1)
    }

    /** They do not, but the page of the new header cannot be mapped, or lies under read-only tables. */
    ghost predicate Faults(vm: Paging.AddressSpace, needed: nat)
      requires vm.pmm.Ready()
      reads `limit, vm, vm.pmm, vm.pmm.bitmap
    {
      && !Starved(vm, needed)
      && (!vm.PathTo(Paging.PageOf(limit)).writable || (PagesFor(needed) == 1 && |vm.pmm.Free()| < Cost(vm, 1)))
    }

    /**
     * `heap_expand`. It fails exactly when the frames end before its last page is taken. It faults exactly when the
     * page of the new header could not be mapped, or lies under read-only tables. Else the list ends in a free block
     * that holds what was asked for, and the heap is still mapped throughout exactly when the frames sufficed for the
     * tables of the last page too. A failure moves the limit without adding a block: from then on the layout may have
     * a gap.
     */
    method HeapExpand(needed: nat, vm: Paging.AddressSpace) returns (g: Growth)
      requires Valid() && needed <= MAX_REQUEST && needed % 16 == 0 && Room(vm)
      modifies this, vm`mem, vm`tables, vm.pmm`freeMemory, vm.pmm.bitmap
      ensures Room(vm) && genuine == old(genuine) && limit >= old(limit)
      ensures !g.HeaderFault? ==> Valid() && Allocated() == old(Allocated())
      ensures g.NoFrames? <==> old(Starved(vm, needed))
      ensures g.HeaderFault? <==> old(Faults(vm, needed))
      ensures g.Grown? ==> list != [] && list[|list| - 1].free && list[|list| - 1].size >= needed && exact == old(exact)
      ensures g.Grown? ==> (AllBacked(vm) <==>
              old(AllBacked(vm)) && |old(vm.pmm.Free())| >= old(Cost(vm, PagesFor(needed))))
      ensures g.NoFrames? ==> list == old(list) && (exact <==> old(exact) && limit == old(limit))
      ensures g.Grown? ==> limit == old(limit) + 4096 * PagesFor(needed)
      ensures g.Grown? ==> list == Expand(old(list), old(limit), 4096 * PagesFor(needed))
    {
      hide AlignUp, Rep, Live, Addrs, StaleFree, FirstAddr, LastAddr, Laid, Expand, Apart, Room, Cost, AllBacked;
      hide PageTables.Walk, PageTables.Tree, Pmm.FrameAllocator.InUse, Pmm.FrameAllocator.Valid;
      var total := AlignUp(needed + 32);
      AlignedAlready(needed + 32);
      var start := limit;
      var ok, mapped := TakePages(total, vm);
      PagesAligned(start, mapped);
      if !ok {
        LaidWeaken(list, HEAP_START, false, exact, start);
        exact := exact && mapped == 0;
        return NoFrames;
      }
      var p := PageTables.Walk(vm.mem, vm.root, 4, Paging.PageOf(start));
      if !p.Mapped() || !p.writable || !PageTables.Writable(p.entry) {
        return HeaderFault;
      }
      ExpandEffect(list, exact, start, mapped);
      AppendApart(list, exact, start, mapped - 32);
      AddPages(start, mapped);
      g := Grown;
    }

    /** The page loop behind the heap, and the page its header will be in. */
    method TakePages(total: nat, vm: Paging.AddressSpace) returns (ok: bool, mapped: nat)
      requires Room(vm) && limit % 4096 == 0 && total >= 1
      modifies this`limit, vm`mem, vm`tables, vm.pmm`freeMemory, vm.pmm.bitmap
      ensures Room(vm) && mapped % 4096 == 0 && limit == old(limit) + mapped <= HEAP_CAP
      ensures var n := (total + 4095) / 4096;
              && (ok <==> |old(vm.pmm.Free())| > old(Cost(vm, n - 1))) && (ok ==> mapped / 4096 == n)
              && (ok ==> (AllBacked(vm) <==> old(AllBacked(vm)) && |old(vm.pmm.Free())| >= old(Cost(vm, n))))
      ensures ok ==>
                var p := vm.PathTo(Paging.PageOf(old(limit)));
                && p.writable == old(vm.PathTo(Paging.PageOf(limit))).writable
                && (p.Mapped() ==> PageTables.Writable(p.entry))
                && (p.Mapped() <==> (total + 4095) / 4096 > 1 || |old(vm.pmm.Free())| >= old(Cost(vm, 1)))
    {
      hide FramesFor, Backed, Unmapped, Around, HeapPage, Paging.Extends;
      hide PageTables.Walk, PageTables.Tree, Pmm.FrameAllocator.InUse;
      var start := limit;
      ghost var lo, n := Paging.PageOf(limit), (total + 4095) / 4096;
      HeapPageOf(limit, |vm.pmm.Free()|);
      RegionUnmapped(vm.mem, vm.root, limit, |vm.pmm.Free()|);
      ok, mapped := MapPages(vm, limit, total);
      limit := limit + mapped;
      PagesAligned(start, mapped);
      HeapPageOf(start, mapped / 4096);
      RegionLeft(old(vm.mem), vm.mem, vm.root, start, mapped);
      if ok {
        StartPage(old(vm.mem), vm.mem, vm.root, lo, n);
      } else {
        FramesGrow(old(vm.tables).Keys, lo, lo + mapped / 4096, lo + n - 1);
      }
    }

    /** The new pages become a block behind the last one, or part of it. */
    method AddPages(start: nat, mapped: nat)
      requires Linked() && mapped >= 32 && Apart(list + [Block(start, mapped - 32, true)])
      modifies this`mem, this`head, this`tail, this`list
      ensures Linked() && list == Expand(old(list), start, mapped)
    {
      hide Rep, StaleFree, Addrs, Apart, LastAddr, FirstAddr, MergeMem, AppendMem;
      ghost var b := Block(start, mapped - 32, true);
      ghost var n := |list|;
      ghost var after := list + [b];
      AppendFacts(mem, list, b);
      AppendEnds(list, b);
      LinkBehind(start, mapped - 32);
      if tail != 0 {
        AppendedHeaders(mem, after);
        if mem[tail].free {
          MergeFacts(mem, after, n - 1);
          MergeTail(mem, tail, start);
          mem := mem[tail := mem[tail].(size := Wrap(mem[tail].size + 32 + mem[start].size), next := 0)];
          list := Absorb(after, n - 1);
          return;
        }
      } else {
        head := start;
      }
      tail := start;
      list := after;
    }

    /** The header of the new pages, linked behind the last block. */
    method LinkBehind(start: nat, size: nat)
      requires tail != 0 ==> tail in mem
      modifies this`mem
      ensures mem == AppendMem(old(mem), tail, start, size) && (0 !in old(mem) && start != 0 ==> 0 !in mem)
    {
      mem := mem[start := Header(HEAP_MAGIC, true, size, 0, tail)];
      if tail != 0 {
        mem := mem[tail := mem[tail].(next := start)];
      }
    }

    /** Splitting and marking: block `i` is handed out. */
    method TakeBlock(blk: nat, size: nat, ghost i: nat)
      requires Valid() && i < |list| && blk == list[i].addr && list[i].free && list[i].size >= size && size % 16 == 0
      modifies this`mem, this`tail, this`list
      ensures Valid() && list == Take(old(list), i, size)
    {
      hide Laid, Rep, StaleFree, Take, SplitOff, FirstAddr, LastAddr, Addrs, Apart, Live;
      TakeEffect(list, exact, limit, i, size);
      TakeIsSplitAndMark(list, i, size);
      SplitApart(list, exact, limit, i, size);
      SplitBlock(blk, size, i);
      MarkFacts(mem, list, i, false);
      mem := mem[blk := mem[blk].(free := false)];
      list := list[i := list[i].(free := false)];
    }

    /**
     * `kmalloc`. A new allocation is disjoint from all others, which stay as they are. The answer is null exactly for
     * an empty request, or when no block fits and the frames end before the last new page; the header fault of
     * `heap_expand` shows as `fault`.
     */
    method Kmalloc(size: nat, vm: Paging.AddressSpace) returns (ptr: nat, fault: bool, ghost i: nat)
      requires Valid() && size <= MAX_REQUEST && Room(vm)
      modifies this, vm`mem, vm`tables, vm.pmm`freeMemory, vm.pmm.bitmap
      ensures Room(vm) && genuine == old(genuine) && (!fault ==> Valid())
      ensures fault ==> ptr == 0
      ensures fault <==> size != 0 && NoFit(old(list), AlignUp(size)) && old(Faults(vm, AlignUp(size)))
      ensures !fault && ptr == 0 ==> Allocated() == old(Allocated())
      ensures ptr != 0 ==>
                && ptr !in old(Allocated()) && ptr in Allocated() && Allocated()[ptr] >= size
                && Allocated() == old(Allocated())[ptr := Allocated()[ptr]]
      ensures ptr == 0 && !fault <==> size == 0 || (NoFit(old(list), AlignUp(size)) && old(Starved(vm, AlignUp(size))))
      ensures !fault ==> (exact <==> old(exact) && (ptr != 0 || limit == old(limit)))
      ensures ptr != 0 ==> Allocated()[ptr] < AlignUp(size) + 48
      ensures ptr != 0 ==>
                limit == old(limit) + (if NoFit(old(list), AlignUp(size)) then 4096 * PagesFor(AlignUp(size)) else 0)
      ensures ptr != 0 ==>
                var a := AlignUp(size);
                var from :=
                  if limit == old(limit) then old(list) else Expand(old(list), old(limit), limit - old(limit));
                && i < |from| && ptr == from[i].addr + 32 && from[i].free && from[i].size >= a
                && (forall j :: 0 <= j < i ==> !(from[j].free && from[j].size >= a))
                && list == from[..i] + (
                      if from[i].size >= a + 48 then
                        [Block(from[i].addr, a, false), Block(from[i].addr + 32 + a, from[i].size - a - 32, true)]
                      else [Block(from[i].addr, from[i].size, false)]) + from[i + 1..]
    {
      hide AlignUp, Laid, Rep, StaleFree, Take, Live, Addrs, Linked, NoFit, Room, Starved, Faults, Cost, Expand;
      hide PageTables.Walk, PageTables.Tree, Pmm.FrameAllocator.InUse, Pmm.FrameAllocator.Valid;
      if size == 0 {
        return 0, false, 0;
      }
      AlignUpExact(size);
      var aligned := AlignUp(size);
      var blk;
      blk, fault, i := FindOrGrow(aligned, vm);
      if blk == 0 {
        return 0, fault, i;
      }
      TakeEffect(list, exact, limit, i, aligned);
      TakeParts(list, i, aligned);
      TakeBlock(blk, aligned, i);
      return blk + 32, false, i;
    }

    /** The two attempts of `kmalloc`: the second one, after growing, always succeeds. */
    method FindOrGrow(size: nat, vm: Paging.AddressSpace) returns (blk: nat, fault: bool, ghost i: nat)
      requires Valid() && size <= MAX_REQUEST && size % 16 == 0 && Room(vm)
      modifies this, vm`mem, vm`tables, vm.pmm`freeMemory, vm.pmm.bitmap
      ensures Room(vm) && genuine == old(genuine) && (!fault ==> Valid() && Allocated() == old(Allocated()))
      ensures fault ==> blk == 0
      ensures blk != 0 ==> i < |list| && blk == list[i].addr && list[i].free && list[i].size >= size
      ensures fault <==> NoFit(old(list), size) && old(Faults(vm, size))
      ensures blk == 0 && !fault <==> NoFit(old(list), size) && old(Starved(vm, size))
      ensures !fault ==> (exact <==> old(exact) && (blk != 0 || limit == old(limit)))
      ensures blk != 0 ==> forall j :: 0 <= j < i ==> !(list[j].free && list[j].size >= size)
      ensures !NoFit(old(list), size) ==> list == old(list) && limit == old(limit)
      ensures NoFit(old(list), size) && blk != 0 ==>
                && limit == old(limit) + 4096 * PagesFor(size)
                && list == Expand(old(list), old(limit), 4096 * PagesFor(size))
    {
      hide Laid, Rep, StaleFree, Live, Addrs, Linked, NoFit, Room, Starved, Faults, AllBacked, Cost, PageTables.Walk;
      hide PageTables.Tree;
      fault := false;
      blk, i := FirstFit(size);
      if blk != 0 {
        return;
      }
      var g := HeapExpand(size, vm);
      if g.Grown? {
        blk, i := FirstFit(size);
        LastFits(list, size, i);
      } else {
        fault := g.HeaderFault?;
      }
    }

    /** `heap_init` */
    constructor (vm: Paging.AddressSpace)
      requires vm.Valid() && 4096 * |vm.pmm.Free()| <= HEAP_CAP - HEAP_START
      requires Unmapped(vm.mem, vm.root, Paging.PageOf(HEAP_START), Paging.PageOf(HEAP_CAP))
      modifies vm`mem, vm`tables, vm.pmm`freeMemory, vm.pmm.bitmap
      ensures Room(vm) && genuine
      ensures old(vm.PathTo(Paging.PageOf(HEAP_START))).writable ==> Valid() && Allocated() == map[]
      ensures old(vm.PathTo(Paging.PageOf(HEAP_START))).writable ==>
                var first := Paging.PageOf(HEAP_START);
                list == if |old(vm.pmm.Free())| <= FramesFor(old(vm.tables).Keys, first, first + 1) then []
                        else [Block(HEAP_START, 8192 - 32, true)]
    {
      mem, head, tail, limit := map[], 0, 0, HEAP_START;
      list, exact, genuine := [], true, true;
      new;
      hide Laid, Live, Backed, Unmapped, FramesFor, PageTables.Walk, PageTables.Tree, Pmm.FrameAllocator.InUse;
      var g := HeapExpand(4096, vm);
    }

    /**
     * A program writes into its own allocation: whatever headers its bytes spell, whole or in part, the list is
     * as it was.
     */
    method Scribble(ptr: nat, bytes: Memory)
      requires Valid() && ptr in Allocated()
      requires forall k :: k in bytes ==> ptr - 32 < k < ptr + Allocated()[ptr] && Spellable(bytes[k])
      modifies this`mem, this`genuine
      ensures Valid() && genuine == (old(genuine) && StaleFree(mem, list))
      ensures forall k: nat :: !(ptr - 32 < k < ptr + Allocated()[ptr]) ==> At(mem, k) == old(At(mem, k))
      ensures forall k :: k in bytes ==> At(mem, k) == bytes[k]
    {
      ghost var i := LiveIndex(list, ptr);
      LiveBlock(list, exact, limit, i);
      forall k | k in Addrs(list) ensures k !in bytes {
        BlockOutside(list, exact, limit, i, k);
      }
      LaidBound(list, HEAP_START, false, exact, limit);
      LaidAt(list, HEAP_START, false, exact, limit, i);
      hide Laid;
      SameHeaders(mem, mem + bytes, list);
      mem := mem + bytes;
      genuine := genuine && StaleFree(mem, list);
    }

    /**
     * Freeing every allocation, in any order: while no expansion has failed, what remains is a single
     * free block over the whole heap. Pointers that are no allocations may be passed too as long as no header
     * has been forged.
     */
    method FreeAll(ptrs: seq<nat>)
      requires Valid() && forall p :: p in Allocated() ==> p in ptrs
      requires forall i :: 0 <= i < |ptrs| ==> ptrs[i] < TWO64
      requires genuine || (Distinct(ptrs) && forall p :: p in ptrs ==> p in Allocated())
      modifies this`mem, this`tail, this`list
      ensures Valid() && Allocated() == map[] && exact == old(exact) && limit == old(limit)
      ensures exact && list != [] ==>
              HEAP_START + 32 <= limit && list == [Block(HEAP_START, limit - HEAP_START - 32, true)]
    {
      hide Laid, Live, Linked, Harmless;
      var n := 0;
      while n < |ptrs|
        invariant n <= |ptrs| && Valid()
        invariant forall p :: p in Allocated() ==> p in ptrs[n..]
        invariant genuine || forall p :: p in ptrs[n..] ==> p in Allocated()
      {
        assert ptrs[n..] == [ptrs[n]] + ptrs[n + 1..];
        Kfree(ptrs[n]);
        n := n + 1;
      }
      assert Allocated() == map[];
      forall i | 0 <= i < |list| ensures list[i].free {
        if !list[i].free {
          LiveBlock(list, exact, limit, i);
        }
      }
      if exact && list != [] {
        AllFreeIsOne(list, HEAP_START, limit);
      }
    }
  }

  ghost predicate Distinct(ptrs: seq<nat>) {
    forall i, j :: 0 <= i < j < |ptrs| ==> ptrs[i] != ptrs[j]
  }

  /** No header of the list lies in the payload of block `i`, nor overlaps it from before. */
  lemma BlockOutside(list: seq<Block>, exact: bool, hi: nat, i: nat, k: nat)
    requires Laid(list, HEAP_START, false, exact, hi) && i < |list| && k in Addrs(list)
    ensures k <= list[i].addr || list[i].End() <= k
  {
    var j := BlockIndex(list, k);
    if i < j {
      LaidOrder(list, HEAP_START, false, exact, hi, i, j);
    } else if j < i {
      LaidOrder(list, HEAP_START, false, exact, hi, j, i);
    }
  }

  lemma NoneFits(list: seq<Block>, size: nat)
    requires forall j :: 0 <= j < |list| ==> !(list[j].free && list[j].size >= size)
    ensures NoFit(list, size)
  {
  }

  lemma SomeFits(list: seq<Block>, size: nat, i: nat)
    requires i < |list| && list[i].free && list[i].size >= size
    ensures !NoFit(list, size)
  {
  }

  /** A search over a list that ends in a block large enough does not come back empty. */
  lemma LastFits(list: seq<Block>, size: nat, i: nat)
    requires list != [] && list[|list| - 1].free && list[|list| - 1].size >= size
    requires forall j :: 0 <= j < i && j < |list| ==> !(list[j].free && list[j].size >= size)
    ensures i < |list|
  {
    var last := |list| - 1;
    assert list[last].free && list[last].size >= size;
  }

  lemma SplitApart(list: seq<Block>, exact: bool, hi: nat, i: nat, size: nat)
    requires Laid(list, HEAP_START, false, exact, hi) && i < |list| && size % 16 == 0 && list[i].free
    requires list[i].size >= size && hi < TWO64
    ensures Apart(list[..i] + SplitOff(list[i], size) + list[i + 1..])
  {
    TakeEffect(list, exact, hi, i, size);
    LaidApart(Take(list, i, size), exact, hi);
    SplitApartAddrs(list, exact, hi, i, size);
    hide Laid, Take, SplitOff;
    var t, s := Take(list, i, size), list[..i] + SplitOff(list[i], size) + list[i + 1..];
    assert forall j :: 0 <= j < |s| ==> s[j].addr == t[j].addr && s[j].End() == t[j].End();
  }

  lemma MergeTail(mem: Memory, x: nat, y: nat)
    requires x in mem && y in mem && mem[y].next == 0
    ensures MergeMem(mem, x, y) == mem[x := mem[x].(size := Wrap(mem[x].size + 32 + mem[y].size), next := 0)]
  {
  }

  lemma AppendEnds(list: seq<Block>, b: Block)
    requires Apart(list + [b])
    ensures list == [] ==> FirstAddr(list + [b], 0) == b.addr && LastAddr(list, 0) == 0
    ensures list != [] ==>
              && FirstAddr(list + [b], 0) == FirstAddr(list, 0) && LastAddr(list, 0) != 0
              && (list + [b])[|list| - 1].addr == LastAddr(list, 0)
    ensures LastAddr(list + [b], 0) == b.addr && b.addr != 0
  {
    assert (list + [b])[|list|] == b;
    assert list != [] ==> (list + [b])[|list| - 1].addr != 0;
  }

  lemma AppendedHeaders(mem: Memory, list: seq<Block>)
    requires |list| >= 2 && Rep(mem, list, 0, 0)
    ensures var x, y := list[|list| - 2], list[|list| - 1];
            && x.addr in mem && mem[x.addr].free == x.free
            && y.addr in mem && mem[y.addr].next == 0 && mem[y.addr].size == y.size
  {
    HeaderAt(mem, list, |list| - 2);
    HeaderAt(mem, list, |list| - 1);
  }

  lemma AppendApart(list: seq<Block>, exact: bool, limit: nat, size: nat)
    requires Laid(list, HEAP_START, false, exact, limit) && HEAP_START <= limit && limit + 32 + size < TWO64
    ensures Apart(list + [Block(limit, size, true)])
  {
    LaidApart(list, exact, limit);
    forall i | 0 <= i < |list| ensures list[i].End() <= limit {
      LaidAt(list, HEAP_START, false, exact, limit, i);
    }
  }

  lemma BlockIndex(list: seq<Block>, blk: nat) returns (i: nat)
    requires blk in Addrs(list)
    ensures i < |list| && list[i].addr == blk
  {
    i :| 0 <= i < |list| && list[i].addr == blk;
  }

  lemma Unsplit(list: seq<Block>, i: nat, size: nat)
    requires i < |list| && list[i].size < size + 32 + 16
    ensures list == list[..i] + [list[i]] + list[i + 1..] && SplitOff(list[i], size) == [list[i]]
  {
  }

  lemma SplitFacts(mem: Memory, list: seq<Block>, i: nat, size: nat, exact: bool, hi: nat)
    requires i < |list| && Laid(list, HEAP_START, false, exact, hi) && Rep(mem, list, 0, 0) && hi < TWO64
    requires list[i].size >= size + 32 + 16
    ensures var blk := list[i].addr;
            && blk in mem && mem[blk].size == list[i].size && (mem[blk].next != 0 ==> mem[blk].next in mem)
            && var list' := list[..i] + SplitOff(list[i], size) + list[i + 1..];
            && Rep(SplitMem(mem, blk, size), list', 0, 0)
            && (StaleFree(mem, list) ==> StaleFree(SplitMem(mem, blk, size), list'))
            && (0 !in mem ==> 0 !in SplitMem(mem, blk, size))
            && FirstAddr(list', 0) == FirstAddr(list, 0)
            && LastAddr(list', 0) == if mem[blk].next == 0 then blk + 32 + size else LastAddr(list, 0)
  {
    var a, b, c := list[..i], list[i], list[i + 1..];
    assert list == a + [b] + c;
    LaidApart(list, exact, hi);
    ApartSplit(a, [b], c);
    SplitRep(mem, a, b, c, size, exact, hi);
    hide Laid, Rep, Apart, Addrs, SplitMem;
    if StaleFree(mem, list) {
      SplitStale(mem, a, b, c, size);
    }
    if 0 !in mem {
      SplitNull(mem, b.addr, size);
    }
    EndsOf(a, [b], SplitOff(b, size), c);
  }

  lemma SplitNull(mem: Memory, blk: nat, size: nat)
    requires blk in mem && mem[blk].size >= size + 32 && (mem[blk].next != 0 ==> mem[blk].next in mem) && 0 !in mem
    ensures 0 !in SplitMem(mem, blk, size)
  {
  }

  lemma SplitStale(mem: Memory, a: seq<Block>, b: Block, c: seq<Block>, size: nat)
    requires b.addr in mem && mem[b.addr].size == b.size >= size + 32 + 16 && mem[b.addr].next == FirstAddr(c, 0)
    requires mem[b.addr].next != 0 ==> mem[b.addr].next in mem
    requires StaleFree(mem, a + [b] + c)
    ensures StaleFree(SplitMem(mem, b.addr, size), a + SplitOff(b, size) + c)
  {
    AddrsOf(a, [b], c);
    AddrsOf(a, SplitOff(b, size), c);
    assert SplitOff(b, size)[0].addr in Addrs(SplitOff(b, size))
           && SplitOff(b, size)[1].addr in Addrs(SplitOff(b, size));
    if c != [] {
      assert c[0].addr in Addrs(c);
    }
    assert forall k :: k in Addrs([b]) ==> k == b.addr;
  }

  lemma AddrsOf(a: seq<Block>, m: seq<Block>, c: seq<Block>)
    ensures Addrs(a + m + c) == Addrs(a) + Addrs(m) + Addrs(c)
  {
    var list := a + m + c;
    forall x ensures x in Addrs(list) <==> x in Addrs(a) + Addrs(m) + Addrs(c) {
      if x in Addrs(a) {
        var i :| 0 <= i < |a| && a[i].addr == x;
        assert list[i].addr == x;
      }
      if x in Addrs(m) {
        var i :| 0 <= i < |m| && m[i].addr == x;
        assert list[|a| + i].addr == x;
      }
      if x in Addrs(c) {
        var i :| 0 <= i < |c| && c[i].addr == x;
        assert list[|a| + |m| + i].addr == x;
      }
      if x in Addrs(list) {
        var i :| 0 <= i < |list| && list[i].addr == x;
        if i < |a| {
          assert a[i].addr == x;
        } else if i < |a| + |m| {
          assert m[i - |a|].addr == x;
        } else {
          assert c[i - |a| - |m|].addr == x;
        }
      }
    }
  }

  lemma MergeFacts(mem: Memory, list: seq<Block>, i: nat)
    requires i + 1 < |list| && list[i + 1].free && Apart(list) && Rep(mem, list, 0, 0)
    ensures var x, y := list[i].addr, list[i + 1].addr;
            && x in mem && y in mem && (mem[y].next != 0 ==> mem[y].next in mem)
            && Apart(Absorb(list, i)) && Rep(MergeMem(mem, x, y), Absorb(list, i), 0, 0)
            && (StaleFree(mem, list) ==> StaleFree(MergeMem(mem, x, y), Absorb(list, i)))
            && FirstAddr(Absorb(list, i), 0) == FirstAddr(list, 0)
            && LastAddr(Absorb(list, i), 0) == if mem[y].next == 0 then x else LastAddr(list, 0)
  {
    var a, x, y, c := list[..i], list[i], list[i + 1], list[i + 2..];
    assert list == a + [x, y] + c;
    ApartSplit(a, [x, y], c);
    MergeRep(mem, a, x, y, c);
    HeaderAt(mem, list, i + 1);
    hide Rep;
    AbsorbApart(list, i);
    hide Apart;
    assert [x, y][0] == x && [x, y][1] == y;
    if StaleFree(mem, list) {
      MergeStale(mem, a, x, y, c);
    }
    EndsOf(a, [x, y], [Merged(x, y)], c);
  }

  lemma AbsorbApart(list: seq<Block>, i: nat)
    requires i + 1 < |list| && Apart(list)
    ensures Apart(Absorb(list, i))
  {
    var r := Absorb(list, i);
    assert forall j :: 0 <= j <= i ==> r[j].addr == list[j].addr;
    assert forall j :: i < j < |r| ==> r[j] == list[j + 1];
  }

  lemma MergeStale(mem: Memory, a: seq<Block>, x: Block, y: Block, c: seq<Block>)
    requires x.addr in mem && y.addr in mem && x.addr != y.addr && mem[y.addr].free
    requires mem[y.addr].next == FirstAddr(c, 0)
    requires mem[y.addr].next != 0 ==> mem[y.addr].next in mem
    requires y.addr !in Addrs(c) && StaleFree(mem, a + [x, y] + c)
    ensures StaleFree(MergeMem(mem, x.addr, y.addr), a + [Merged(x, y)] + c)
  {
    AddrsOf(a, [x, y], c);
    AddrsOf(a, [Merged(x, y)], c);
    assert [Merged(x, y)][0].addr in Addrs([Merged(x, y)]);
    assert forall k :: k in Addrs([x, y]) ==> k == x.addr || k == y.addr;
    if c != [] {
      assert c[0].addr in Addrs(c);
    }
  }

  lemma MarkApart(list: seq<Block>, i: nat, free: bool)
    requires i < |list| && Apart(list)
    ensures Apart(list[i := list[i].(free := free)])
  {
    var list' := list[i := list[i].(free := free)];
    assert forall j :: 0 <= j < |list| ==> list'[j].addr == list[j].addr && list'[j].End() == list[j].End();
  }

  lemma MarkFacts(mem: Memory, list: seq<Block>, i: nat, free: bool)
    requires i < |list| && Apart(list) && Rep(mem, list, 0, 0)
    ensures var x := list[i].addr;
            var list' := list[i := list[i].(free := free)];
            && x in mem && Apart(list') && Rep(mem[x := mem[x].(free := free)], list', 0, 0)
            && (StaleFree(mem, list) ==> StaleFree(mem[x := mem[x].(free := free)], list'))
            && FirstAddr(list', 0) == FirstAddr(list, 0) && LastAddr(list', 0) == LastAddr(list, 0)
  {
    var a, b, c := list[..i], list[i], list[i + 1..];
    assert list == a + [b] + c;
    MarkRep(mem, a, b, c, free);
    MarkApart(list, i, free);
    hide Rep, Apart;
    var list' := list[i := b.(free := free)];
    assert list' == a + [b.(free := free)] + c;
    AddrsOf(a, [b], c);
    AddrsOf(a, [b.(free := free)], c);
    assert [b][0].addr in Addrs([b]) && [b.(free := free)][0].addr in Addrs([b.(free := free)]);
    assert forall k :: k in Addrs([b]) ==> k == b.addr;
  }

  lemma AppendFacts(mem: Memory, list: seq<Block>, b: Block)
    requires Apart(list + [b]) && Rep(mem, list, 0, 0) && b.free
    ensures LastAddr(list, 0) != 0 ==> LastAddr(list, 0) in mem
    ensures var r := AppendMem(mem, LastAddr(list, 0), b.addr, b.size);
            Rep(r, list + [b], 0, 0) && (StaleFree(mem, list) ==> StaleFree(r, list + [b]))
  {
    AppendRep(mem, list, b);
    hide Rep;
    assert list + [b] == list + [b] + [];
    AddrsOf(list, [b], []);
    assert [b][0].addr in Addrs([b]);
    if list != [] {
      assert list[|list| - 1].addr in Addrs(list);
    }
  }

  lemma {:induction false} LiveIndex(list: seq<Block>, p: nat) returns (i: nat)
    requires p in Live(list)
    ensures i < |list| && !list[i].free && p == list[i].addr + 32
    decreases |list|
  {
    if p in Live(list[1..]) {
      var k := LiveIndex(list[1..], p);
      i := k + 1;
    } else {
      i := 0;
    }
  }

  lemma LiveBlock(list: seq<Block>, exact: bool, hi: nat, i: nat)
    requires Laid(list, HEAP_START, false, exact, hi) && i < |list| && !list[i].free
    ensures list[i].addr + 32 in Live(list) && Live(list)[list[i].addr + 32] == list[i].size
  {
    var a, b, c := list[..i], list[i], list[i + 1..];
    assert list == a + [b] + c;
    NotLiveAround(a, b, c, exact, hi);
    hide Laid;
    LiveAround(a, [b], c);
    LiveSingle(b);
  }

  lemma JoinedKeeps(list: seq<Block>, i: nat)
    requires i < |list| && list[i].free
    ensures i < |Joined(list, i)| && Joined(list, i)[i].addr == list[i].addr && Joined(list, i)[i].free
  {
  }
}
