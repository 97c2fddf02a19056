/** The kernel heap as a list of blocks: what splitting, merging and growing do to its layout. */
module HeapList {
  import opened Bytes

  const HEAP_START: nat := 0xFFFF_FFFF_8100_0000
  /** Where the heap would end if every frame the page allocator manages went into it. */
  const HEAP_CAP: nat := HEAP_START + 4096 * 131072

  /** A block: the address of its 32-byte header, its payload size, whether it is free. */
  datatype Block = Block(addr: nat, size: nat, free: bool) {
    function End(): nat { addr + 32 + size }
  }

  /** `align_up`, 64-bit wrap-around included. */
  function AlignUp(n: nat): nat {
    (if n % 16 != 0 then n + (16 - n % 16) else n) % TWO64
  }

  /** The largest request whose size computations stay within 64 bits. */
  const MAX_REQUEST: nat := TWO64 - 48

  /** Rounding up works exactly for the sizes that leave room for it. */
  lemma AlignUpExact(n: nat)
    requires n < TWO64
    ensures AlignUp(n) >= n <==> n <= TWO64 - 16
    ensures n <= TWO64 - 16 ==> AlignUp(n) % 16 == 0 && AlignUp(n) < n + 16
  {
  }

  lemma AlignedAlready(n: nat)
    requires n < TWO64 && n % 16 == 0
    ensures AlignUp(n) == n
  {
  }

  /** A request of 2^64 - 1 bytes is rounded to none at all. */
  lemma AlignUpWraps()
    ensures AlignUp(TWO64 - 1) == 0
  {
  }

  lemma PagesAligned(start: nat, mapped: nat)
    requires start % 4096 == 0 && mapped % 4096 == 0
    ensures start % 16 == 0 && mapped % 16 == 0 && (start + mapped) % 4096 == 0
  {
  }

  // Layout.

  /**
   * The blocks lie between `lo` and `hi`, aligned, in address order, without overlap; no block is free
   * right behind a free one (`prevFree` says whether the block ending at `lo` is); and in an `exact`
   * layout there is no gap anywhere.
   */
  ghost predicate Laid(list: seq<Block>, lo: nat, prevFree: bool, exact: bool, hi: nat)
    decreases |list|
  {
    if list == [] then if exact then lo == hi else lo <= hi
    else
      var b := list[0];
      && b.addr % 16 == 0 && b.size % 16 == 0
      && (if exact then b.addr == lo else lo <= b.addr)
      && !(prevFree && b.free && b.addr == lo)
      && Laid(list[1..], b.End(), b.free, exact, hi)
  }

  ghost function EndOf(list: seq<Block>, lo: nat): nat {
    if list == [] then lo else list[|list| - 1].End()
  }

  ghost function LastFree(list: seq<Block>, prevFree: bool): bool {
    if list == [] then prevFree else list[|list| - 1].free
  }

  /** A layout is a layout of its front followed by a layout of its back. */
  lemma {:induction false} LaidConcat(a: seq<Block>, b: seq<Block>, lo: nat, prevFree: bool, exact: bool, hi: nat)
    ensures Laid(a + b, lo, prevFree, exact, hi) <==>
            && Laid(a, lo, prevFree, exact, EndOf(a, lo))
            && Laid(b, EndOf(a, lo), LastFree(a, prevFree), exact, hi)
    decreases |a|
  {
    if a == [] {
      assert a + b == b;
    } else {
      assert (a + b)[1..] == a[1..] + b;
      LaidConcat(a[1..], b, a[0].End(), a[0].free, exact, hi);
    }
  }

  /** The same around one block. */
  lemma LaidAround(a: seq<Block>, m: seq<Block>, c: seq<Block>, lo: nat, prevFree: bool, exact: bool, hi: nat)
    ensures Laid(a + m + c, lo, prevFree, exact, hi) <==>
            && Laid(a, lo, prevFree, exact, EndOf(a, lo))
            && Laid(m, EndOf(a, lo), LastFree(a, prevFree), exact, EndOf(m, EndOf(a, lo)))
            && Laid(c, EndOf(m, EndOf(a, lo)), LastFree(m, LastFree(a, prevFree)), exact, hi)
  {
    LaidConcat(a + m, c, lo, prevFree, exact, hi);
    LaidConcat(a, m, lo, prevFree, exact, EndOf(a + m, lo));
  }

  lemma {:induction false} LaidWeaken(list: seq<Block>, lo: nat, prevFree: bool, exact: bool, hi: nat)
    requires Laid(list, lo, prevFree, exact, hi)
    ensures Laid(list, lo, false, exact, hi)
    ensures forall hi' :: hi <= hi' ==> Laid(list, lo, prevFree, false, hi')
    decreases |list|
  {
    if list != [] {
      LaidWeaken(list[1..], list[0].End(), list[0].free, exact, hi);
    }
  }

  /** Where block `i` lies. */
  lemma {:induction false} LaidAt(list: seq<Block>, lo: nat, prevFree: bool, exact: bool, hi: nat, i: nat)
    requires Laid(list, lo, prevFree, exact, hi) && i < |list|
    ensures lo <= list[i].addr && list[i].addr % 16 == 0 && list[i].size % 16 == 0 && list[i].End() <= hi
    decreases |list|
  {
    LaidBound(list[1..], list[0].End(), list[0].free, exact, hi);
    if i > 0 {
      LaidAt(list[1..], list[0].End(), list[0].free, exact, hi, i - 1);
    }
  }

  lemma {:induction false} LaidBound(list: seq<Block>, lo: nat, prevFree: bool, exact: bool, hi: nat)
    requires Laid(list, lo, prevFree, exact, hi)
    ensures lo <= EndOf(list, lo) <= hi
    decreases |list|
  {
    if list != [] {
      LaidBound(list[1..], list[0].End(), list[0].free, exact, hi);
    }
  }

  /** Blocks lie in address order. */
  lemma LaidOrder(list: seq<Block>, lo: nat, prevFree: bool, exact: bool, hi: nat, i: nat, j: nat)
    requires Laid(list, lo, prevFree, exact, hi) && i < j < |list|
    ensures list[i].End() <= list[j].addr
  {
    assert list == list[..i + 1] + list[i + 1..];
    LaidConcat(list[..i + 1], list[i + 1..], lo, prevFree, exact, hi);
    LaidAt(list[i + 1..], list[i].End(), list[i].free, exact, hi, j - i - 1);
  }

  /** No two address-adjacent blocks are both free. */
  lemma LaidCoalesced(list: seq<Block>, lo: nat, prevFree: bool, exact: bool, hi: nat, i: nat)
    requires Laid(list, lo, prevFree, exact, hi) && i + 1 < |list|
    ensures !(list[i].free && list[i + 1].free && list[i].End() == list[i + 1].addr)
  {
    assert list == list[..i + 1] + list[i + 1..];
    LaidConcat(list[..i + 1], list[i + 1..], lo, prevFree, exact, hi);
  }

  /** The bytes of headers and payloads together. */
  ghost function Total(list: seq<Block>): nat {
    if list == [] then 0 else 32 + list[0].size + Total(list[1..])
  }

  /** Without gaps, headers and payloads add up to the mapped bytes. */
  lemma {:induction false} ExactTotal(list: seq<Block>, lo: nat, prevFree: bool, hi: nat)
    requires Laid(list, lo, prevFree, true, hi)
    ensures lo + Total(list) == hi
    decreases |list|
  {
    if list != [] {
      ExactTotal(list[1..], list[0].End(), list[0].free, hi);
    }
  }

  /** Without gaps, a heap whose blocks are all free is one block. */
  lemma AllFreeIsOne(list: seq<Block>, lo: nat, hi: nat)
    requires Laid(list, lo, false, true, hi) && list != []
    requires forall i :: 0 <= i < |list| ==> list[i].free
    ensures lo + 32 <= hi && list == [Block(lo, hi - lo - 32, true)]
  {
    if |list| > 1 {
      hide Laid;
      SecondBlock(list, lo, hi);
      assert false;
    }
    assert list[1..] == [];
  }

  lemma SecondBlock(list: seq<Block>, lo: nat, hi: nat)
    requires Laid(list, lo, false, true, hi) && |list| > 1
    ensures !(list[0].free && list[1].free)
  {
    assert list[1] == list[1..][0];
  }

  lemma LaidOne(b: Block, lo: nat, prevFree: bool, exact: bool)
    ensures Laid([b], lo, prevFree, exact, b.End()) <==>
            && b.addr % 16 == 0 && b.size % 16 == 0 && (if exact then b.addr == lo else lo <= b.addr)
            && !(prevFree && b.free && b.addr == lo)
  {
    assert [b][1..] == [];
  }

  lemma LaidTwo(b: Block, d: Block, lo: nat, prevFree: bool, exact: bool)
    ensures Laid([b, d], lo, prevFree, exact, d.End()) <==>
            && Laid([b], lo, prevFree, exact, b.End()) && Laid([d], b.End(), b.free, exact, d.End())
  {
    assert [b] + [d] == [b, d];
    LaidConcat([b], [d], lo, prevFree, exact, d.End());
  }

  // Allocations.

  /** The allocations: payload address and size of every block in use. */
  ghost function Live(list: seq<Block>): map<nat, nat> {
    if list == [] then map[] else LiveOne(list[0]) + Live(list[1..])
  }

  ghost function LiveOne(b: Block): map<nat, nat> {
    if b.free then map[] else map[b.addr + 32 := b.size]
  }

  lemma UnionAssociates(x: map<nat, nat>, y: map<nat, nat>, z: map<nat, nat>)
    ensures (x + y) + z == x + (y + z)
  {
  }

  lemma {:induction false} LiveConcat(a: seq<Block>, b: seq<Block>)
    ensures Live(a + b) == Live(a) + Live(b)
    decreases |a|
  {
    if a == [] {
      assert a + b == b;
    } else {
      assert (a + b)[1..] == a[1..] + b;
      LiveConcat(a[1..], b);
      UnionAssociates(LiveOne(a[0]), Live(a[1..]), Live(b));
    }
  }

  lemma LiveSingle(b: Block)
    ensures Live([b]) == LiveOne(b)
  {
    assert [b][1..] == [];
  }

  lemma LiveAround(a: seq<Block>, m: seq<Block>, c: seq<Block>)
    ensures Live(a + m + c) == Live(a) + Live(m) + Live(c)
  {
    LiveConcat(a + m, c);
    LiveConcat(a, m);
  }

  lemma {:induction false} LiveBounds(list: seq<Block>, lo: nat, prevFree: bool, exact: bool, hi: nat, p: nat)
    requires Laid(list, lo, prevFree, exact, hi) && p in Live(list)
    ensures lo + 32 <= p && p % 16 == 0 && p + Live(list)[p] <= hi
    decreases |list|
  {
    var rest := list[1..];
    LaidBound(rest, list[0].End(), list[0].free, exact, hi);
    if p in Live(rest) {
      LiveBounds(rest, list[0].End(), list[0].free, exact, hi, p);
    }
  }

  /** Allocations never overlap, headers included. */
  lemma {:induction false} LiveDisjoint(list: seq<Block>, lo: nat, prevFree: bool, exact: bool, hi: nat, p: nat, q: nat)
    requires Laid(list, lo, prevFree, exact, hi) && p in Live(list) && q in Live(list) && p < q
    ensures p + Live(list)[p] <= q - 32
    decreases |list|
  {
    var rest := list[1..];
    if q in Live(rest) {
      LiveBounds(rest, list[0].End(), list[0].free, exact, hi, q);
    }
    if p in Live(rest) {
      LiveBounds(rest, list[0].End(), list[0].free, exact, hi, p);
      LiveDisjoint(rest, list[0].End(), list[0].free, exact, hi, p, q);
    }
  }

  /** The payload of a block is no allocation of the blocks around it. */
  lemma NotLiveAround(a: seq<Block>, b: Block, c: seq<Block>, exact: bool, hi: nat)
    requires Laid(a + [b] + c, HEAP_START, false, exact, hi)
    ensures b.addr + 32 !in Live(a) && b.addr + 32 !in Live(c)
  {
    LaidAround(a, [b], c, HEAP_START, false, exact, hi);
    LaidOne(b, EndOf(a, HEAP_START), LastFree(a, false), exact);
    hide Laid;
    var p := b.addr + 32;
    if p in Live(a) {
      LiveBounds(a, HEAP_START, false, exact, EndOf(a, HEAP_START), p);
      assert false;
    }
    if p in Live(c) {
      LiveBounds(c, b.End(), b.free, exact, hi, p);
      assert false;
    }
  }

  lemma UnionUpdate(x: map<nat, nat>, y: map<nat, nat>, p: nat, s: nat)
    requires p !in y
    ensures x + map[p := s] + y == (x + map[] + y)[p := s]
  {
  }

  lemma UnionRemove(x: map<nat, nat>, y: map<nat, nat>, p: nat, s: nat)
    requires p !in x && p !in y
    ensures x + map[] + y == (x + map[p := s] + y) - {p}
  {
  }

  /** One block changes hands; the allocations around it are the same. */
  lemma LiveUpdate(a: seq<Block>, b: Block, m: seq<Block>, c: seq<Block>, exact: bool, hi: nat)
    requires Laid(a + [b] + c, HEAP_START, false, exact, hi)
    requires b.free && m != [] && m[0].addr == b.addr && !m[0].free && Live(m) == LiveOne(m[0])
    ensures b.addr + 32 !in Live(a + [b] + c)
    ensures Live(a + m + c) == Live(a + [b] + c)[b.addr + 32 := m[0].size]
  {
    NotLiveAround(a, b, c, exact, hi);
    hide Laid, Live;
    LiveAround(a, [b], c);
    LiveAround(a, m, c);
    LiveSingle(b);
    UnionUpdate(Live(a), Live(c), b.addr + 32, m[0].size);
  }

  // Steps.

  /** `split_block`: the block keeps `size` bytes when the rest can hold a header and 16 more. */
  function SplitOff(b: Block, size: nat): (r: seq<Block>)
    ensures |r| == 1 || |r| == 2
    ensures r[0].addr == b.addr && r[|r| - 1].End() == b.End()
    ensures |r| == 1 ==> r == [b]
  {
    if b.size < size + 32 + 16 then [b]
    else [Block(b.addr, size, b.free), Block(b.addr + 32 + size, b.size - size - 32, true)]
  }

  /** The block handed out, and the rest split off it. */
  function Handed(b: Block, size: nat): (r: seq<Block>)
    ensures |r| == |SplitOff(b, size)|
  {
    var parts := SplitOff(b, size);
    parts[0 := parts[0].(free := false)]
  }

  function Take(list: seq<Block>, i: nat, size: nat): (r: seq<Block>)
    requires i < |list|
  {
    list[..i] + Handed(list[i], size) + list[i + 1..]
  }

  /** What is split off and what stays, byte for byte. */
  lemma TakeParts(list: seq<Block>, i: nat, size: nat)
    requires i < |list| && list[i].free && list[i].size >= size
    ensures Take(list, i, size) == list[..i] + (
                if list[i].size >= size + 48 then
                  [Block(list[i].addr, size, false), Block(list[i].addr + 32 + size, list[i].size - size - 32, true)]
                else [Block(list[i].addr, list[i].size, false)]) + list[i + 1..]
    ensures Handed(list[i], size)[0].size < size + 48
  {
    var b := list[i];
    assert Handed(b, size) ==
        if b.size >= size + 48 then [Block(b.addr, size, false), Block(b.addr + 32 + size, b.size - size - 32, true)]
        else [Block(b.addr, b.size, false)];
  }

  lemma HandedLayout(b: Block, size: nat, lo: nat, prevFree: bool, exact: bool)
    requires b.free && b.size >= size && size % 16 == 0 && Laid([b], lo, prevFree, exact, b.End())
    ensures Laid(Handed(b, size), lo, prevFree, exact, b.End())
    ensures Handed(b, size)[0].size >= size && Live(Handed(b, size)) == LiveOne(Handed(b, size)[0])
  {
    LaidOne(b, lo, prevFree, exact);
    var m := Handed(b, size);
    LaidOne(m[0], lo, prevFree, exact);
    if |m| == 2 {
      assert m == [m[0], m[1]];
      LaidOne(m[1], m[0].End(), m[0].free, exact);
      LaidTwo(m[0], m[1], lo, prevFree, exact);
      assert [m[0]] + [m[1]] == m;
      LiveConcat([m[0]], [m[1]]);
      LiveSingle(m[1]);
    } else {
      assert m == [m[0]];
    }
    LiveSingle(m[0]);
  }

  /** Handing out a free block keeps the layout and adds exactly one allocation. */
  lemma TakeEffect(list: seq<Block>, exact: bool, hi: nat, i: nat, size: nat)
    requires Laid(list, HEAP_START, false, exact, hi) && i < |list|
    requires list[i].free && list[i].size >= size && size % 16 == 0
    ensures Laid(Take(list, i, size), HEAP_START, false, exact, hi)
    ensures list[i].addr + 32 !in Live(list)
    ensures Handed(list[i], size)[0].size >= size
    ensures Live(Take(list, i, size)) == Live(list)[list[i].addr + 32 := Handed(list[i], size)[0].size]
  {
    hide Live;
    var a, b, c := list[..i], list[i], list[i + 1..];
    assert list == a + [b] + c;
    var m := Handed(b, size);
    LaidAround(a, [b], c, HEAP_START, false, exact, hi);
    HandedLayout(b, size, EndOf(a, HEAP_START), LastFree(a, false), exact);
    LiveUpdate(a, b, m, c, exact, hi);
    LaidWeaken(c, b.End(), true, exact, hi);
    LaidAround(a, m, c, HEAP_START, false, exact, hi);
  }

  /** Block `b` with the block behind it merged into it. */
  function Merged(b: Block, d: Block): Block {
    b.(size := b.size + 32 + d.size)
  }

  /** `heap_expand`: the new pages as one free block, merged into the last block if that is free. */
  function Expand(list: seq<Block>, start: nat, mapped: nat): (r: seq<Block>)
    requires mapped >= 32
  {
    var pages := Block(start, mapped - 32, true);
    if list != [] && list[|list| - 1].free then list[..|list| - 1] + [Merged(list[|list| - 1], pages)]
    else list + [pages]
  }

  lemma ExpandLayout(list: seq<Block>, exact: bool, limit: nat, mapped: nat)
    requires Laid(list, HEAP_START, false, exact, limit)
    requires limit % 16 == 0 && mapped % 16 == 0 && mapped >= 32
    ensures Laid(Expand(list, limit, mapped), HEAP_START, false, exact, limit + mapped)
  {
    var pages := Block(limit, mapped - 32, true);
    LaidBound(list, HEAP_START, false, exact, limit);
    if list != [] && list[|list| - 1].free {
      var a, b := list[..|list| - 1], list[|list| - 1];
      assert list == a + [b];
      LaidConcat(a, [b], HEAP_START, false, exact, limit);
      LaidLast(b, EndOf(a, HEAP_START), LastFree(a, false), exact, limit);
      LaidLast(Merged(b, pages), EndOf(a, HEAP_START), LastFree(a, false), exact, limit + mapped);
      LaidConcat(a, [Merged(b, pages)], HEAP_START, false, exact, limit + mapped);
    } else {
      LaidUpTo(list, HEAP_START, false, exact, limit);
      LaidLast(pages, EndOf(list, HEAP_START), LastFree(list, false), exact, limit + mapped);
      LaidConcat(list, [pages], HEAP_START, false, exact, limit + mapped);
    }
  }

  /** Growing keeps the layout, gaps in front of the new pages included, and every allocation. */
  lemma ExpandEffect(list: seq<Block>, exact: bool, limit: nat, mapped: nat)
    requires Laid(list, HEAP_START, false, exact, limit)
    requires limit % 16 == 0 && mapped % 16 == 0 && mapped >= 32
    ensures Laid(Expand(list, limit, mapped), HEAP_START, false, exact, limit + mapped)
    ensures Live(Expand(list, limit, mapped)) == Live(list)
    ensures var r := Expand(list, limit, mapped);
            r != [] && r[|r| - 1].free && r[|r| - 1].size >= mapped - 32
  {
    ExpandLayout(list, exact, limit, mapped);
    hide Laid, Live;
    var pages := Block(limit, mapped - 32, true);
    if list != [] && list[|list| - 1].free {
      var a, b := list[..|list| - 1], list[|list| - 1];
      assert list == a + [b];
      LiveConcat(a, [b]);
      LiveConcat(a, [Merged(b, pages)]);
      LiveSingle(b);
      LiveSingle(Merged(b, pages));
    } else {
      LiveConcat(list, [pages]);
      LiveSingle(pages);
      assert Live(list) + map[] == Live(list);
    }
  }

  lemma LaidLast(b: Block, lo: nat, prevFree: bool, exact: bool, hi: nat)
    ensures Laid([b], lo, prevFree, exact, hi) <==>
            && b.addr % 16 == 0 && b.size % 16 == 0
            && (if exact then b.addr == lo && b.End() == hi else lo <= b.addr && b.End() <= hi)
            && !(prevFree && b.free && b.addr == lo)
  {
    assert [b][1..] == [];
  }

  /** What is laid out up to `hi` is laid out up to its own end; exactly so without gaps. */
  lemma LaidUpTo(list: seq<Block>, lo: nat, prevFree: bool, exact: bool, hi: nat)
    requires Laid(list, lo, prevFree, exact, hi)
    ensures Laid(list, lo, prevFree, exact, EndOf(list, lo)) && (exact ==> EndOf(list, lo) == hi)
  {
    assert list == list + [];
    LaidConcat(list, [], lo, prevFree, exact, hi);
  }

  /** Block `b` freed and merged with the block behind it where they touch: the block, and what follows. */
  function JoinNext(b: Block, c: seq<Block>): (r: (Block, seq<Block>)) {
    var freed := b.(free := true);
    if c != [] && c[0].free && c[0].addr == b.End() then (Merged(freed, c[0]), c[1..]) else (freed, c)
  }

  /** A free block merged into the block before it where they touch: what precedes, and the block. */
  function JoinPrev(a: seq<Block>, b: Block): (r: (seq<Block>, Block)) {
    if a != [] && a[|a| - 1].free && b.addr == a[|a| - 1].End() then (a[..|a| - 1], Merged(a[|a| - 1], b)) else (a, b)
  }

  /** `kfree` of block `i`. */
  function Release(list: seq<Block>, i: nat): (r: seq<Block>)
    requires i < |list|
  {
    var (b, c) := JoinNext(list[i], list[i + 1..]);
    var (a, m) := JoinPrev(list[..i], b);
    a + [m] + c
  }

  lemma JoinNextEffect(b: Block, c: seq<Block>, exact: bool, hi: nat)
    requires Laid(c, b.End(), false, exact, hi) && b.addr % 16 == 0 && b.size % 16 == 0
    ensures var (b', c') := JoinNext(b, c);
            && b'.addr == b.addr && b'.free && b'.size % 16 == 0 && b'.End() >= b.End()
            && Laid(c', b'.End(), true, exact, hi) && Live(c') == Live(c)
  {
    if c != [] && c[0].free && c[0].addr == b.End() {
      assert Live(c) == Live(c[1..]);
    }
  }

  lemma JoinPrevEffect(a: seq<Block>, b: Block, exact: bool)
    requires Laid(a, HEAP_START, false, exact, EndOf(a, HEAP_START))
    requires b.free && b.addr % 16 == 0 && b.size % 16 == 0
    requires if exact then b.addr == EndOf(a, HEAP_START) else EndOf(a, HEAP_START) <= b.addr
    ensures var (a', m) := JoinPrev(a, b);
            && m.free && m.End() == b.End()
            && Laid(a', HEAP_START, false, exact, EndOf(a', HEAP_START))
            && Laid([m], EndOf(a', HEAP_START), LastFree(a', false), exact, m.End())
            && Live(a') == Live(a)
  {
    hide Laid, Live;
    var (a', m) := JoinPrev(a, b);
    if a' != a {
      var p := a[|a| - 1];
      assert a == a' + [p];
      LaidConcat(a', [p], HEAP_START, false, exact, p.End());
      LaidOne(p, EndOf(a', HEAP_START), LastFree(a', false), exact);
      LaidOne(m, EndOf(a', HEAP_START), LastFree(a', false), exact);
      LiveConcat(a', [p]);
      LiveSingle(p);
      assert Live(a') + map[] == Live(a');
    } else {
      LaidOne(m, EndOf(a', HEAP_START), LastFree(a', false), exact);
    }
  }

  /** Freeing a block merges it with the free blocks it touches and removes exactly one allocation. */
  lemma ReleaseEffect(list: seq<Block>, exact: bool, hi: nat, i: nat)
    requires Laid(list, HEAP_START, false, exact, hi) && i < |list| && !list[i].free
    ensures Laid(Release(list, i), HEAP_START, false, exact, hi)
    ensures Live(Release(list, i)) == Live(list) - {list[i].addr + 32}
  {
    hide Laid, Live, JoinNext, JoinPrev;
    var a, b, c := list[..i], list[i], list[i + 1..];
    assert list == a + [b] + c;
    LaidAround(a, [b], c, HEAP_START, false, exact, hi);
    LaidOne(b, EndOf(a, HEAP_START), LastFree(a, false), exact);
    NotLiveAround(a, b, c, exact, hi);
    var (b', c') := JoinNext(b, c);
    JoinNextEffect(b, c, exact, hi);
    var (a', m) := JoinPrev(a, b');
    JoinPrevEffect(a, b', exact);
    LaidAround(a', [m], c', HEAP_START, false, exact, hi);
    LiveAround(a, [b], c);
    LiveAround(a', [m], c');
    LiveSingle(b);
    LiveSingle(m);
    UnionRemove(Live(a), Live(c), b.addr + 32, b.size);
  }

  // The same step by step.

  /** Block `i` is free, so is the block behind it, and they touch. */
  predicate Joinable(list: seq<Block>, i: nat) {
    i + 1 < |list| && list[i].free && list[i + 1].free && list[i + 1].addr == list[i].End()
  }

  /** Block `i` with the block behind it merged into it. */
  function Absorb(list: seq<Block>, i: nat): seq<Block>
    requires i + 1 < |list|
  {
    list[..i] + [Merged(list[i], list[i + 1])] + list[i + 2..]
  }

  /** The same where they can be merged. */
  function Joined(list: seq<Block>, i: nat): seq<Block> {
    if Joinable(list, i) then Absorb(list, i) else list
  }

  lemma ReleaseSteps(list: seq<Block>, i: nat)
    requires i < |list|
    ensures var l1 := list[i := list[i].(free := true)];
            var l2 := Joined(l1, i);
            Release(list, i) == if i == 0 then l2 else Joined(l2, i - 1)
  {
    var a, b, c := list[..i], list[i], list[i + 1..];
    var l1 := list[i := b.(free := true)];
    var l2 := Joined(l1, i);
    var (b', c') := JoinNext(b, c);
    assert l2 == a + [b'] + c' by {
      assert l1[..i] == a && l1[i + 1..] == c;
      if Joinable(l1, i) {
        assert l1[i + 2..] == c[1..] && l1[i + 1] == c[0];
      } else {
        assert l1 == a + [b'] + c;
      }
    }
    if i > 0 {
      assert l2[i - 1] == a[i - 1] && l2[i] == b' && l2[..i - 1] == a[..i - 1] && l2[i + 1..] == c';
      assert l2[..i] == a;
    }
  }

  /** No block can be handed out for `size` bytes. */
  predicate NoFit(list: seq<Block>, size: nat) {
    forall i :: 0 <= i < |list| ==> !(list[i].free && list[i].size >= size)
  }

  lemma TakeIsSplitAndMark(list: seq<Block>, i: nat, size: nat)
    requires i < |list|
    ensures var s := list[..i] + SplitOff(list[i], size) + list[i + 1..];
            i < |s| && s[i].addr == list[i].addr && s[i := s[i].(free := false)] == Take(list, i, size)
  {
    var parts := SplitOff(list[i], size);
    var s := list[..i] + parts + list[i + 1..];
    assert s[i] == parts[0];
    assert s[i := s[i].(free := false)] == list[..i] + parts[0 := parts[0].(free := false)] + list[i + 1..];
  }

  lemma SplitApartAddrs(list: seq<Block>, exact: bool, hi: nat, i: nat, size: nat)
    requires Laid(list, HEAP_START, false, exact, hi) && i < |list| && size % 16 == 0 && list[i].free
    requires list[i].size >= size
    ensures var t := Take(list, i, size);
            var s := list[..i] + SplitOff(list[i], size) + list[i + 1..];
            |s| == |t| && forall j :: 0 <= j < |s| ==> s[j].addr == t[j].addr
  {
    TakeIsSplitAndMark(list, i, size);
  }
}
