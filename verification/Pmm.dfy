/** The physical memory manager of kernel/pmm.c: a bitmap of 4 KB frames, one bit each, set when in use. */
module Pmm {

  const BITMAP_SIZE: nat := 16384
  const FRAMES: nat := 131072
  const LOW_FRAMES: nat := 256

  /** `1 << (bit % 8)` */
  function Mask(bit: nat): (m: bv8)
    ensures m != 0
  {
    match bit % 8
    case 0 => 0x01
    case 1 => 0x02
    case 2 => 0x04
    case 3 => 0x08
    case 4 => 0x10
    case 5 => 0x20
    case 6 => 0x40
    case _ => 0x80
  }

  predicate Test(b: bv8, bit: nat) { b & Mask(bit) != 0 }

  function Set(b: bv8, bit: nat): bv8 { b | Mask(bit) }

  function Clear(b: bv8, bit: nat): bv8 { b & !Mask(bit) }

  lemma SetBit(b: bv8, i: nat, j: nat)
    ensures Test(Set(b, i), j) <==> i % 8 == j % 8 || Test(b, j)
  {
  }

  lemma ClearBit(b: bv8, i: nat, j: nat)
    ensures Test(Clear(b, i), j) <==> i % 8 != j % 8 && Test(b, j)
  {
  }

  /** An entry of the boot loader's memory map. */
  datatype Region = Region(base: nat, length: nat, usable: bool) {
    predicate Aligned() { base % 4096 == 0 && length % 4096 == 0 }
    function FirstFrame(): nat { base / 4096 }
    function EndFrame(): nat { (base + length) / 4096 }
  }

  /** Usable regions are page-aligned and do not overlap, as the boot protocol promises. */
  ghost predicate WellFormed(regions: seq<Region>) {
    && (forall i :: 0 <= i < |regions| && regions[i].usable ==> regions[i].Aligned())
    && (forall i, j :: 0 <= i < j < |regions| && regions[i].usable && regions[j].usable ==>
          regions[i].EndFrame() <= regions[j].FirstFrame() || regions[j].EndFrame() <= regions[i].FirstFrame())
  }

  /** Frame `f` lies in one of the first `n` entries, a usable one. */
  ghost predicate Usable(regions: seq<Region>, n: nat, f: nat) {
    exists i :: 0 <= i < n && i < |regions| && regions[i].usable && regions[i].FirstFrame() <= f < regions[i].EndFrame()
  }

  function HighestUsable(regions: seq<Region>): nat {
    if regions == [] then 0
    else
      var rest := HighestUsable(regions[..|regions| - 1]);
      var e := regions[|regions| - 1];
      if e.usable && e.base + e.length > rest then e.base + e.length else rest
  }

  /** No usable region ends above the highest usable address, and one ends there unless it is 0. */
  lemma {:induction false} HighestEnds(regions: seq<Region>)
    ensures forall i :: 0 <= i < |regions| && regions[i].usable ==>
              regions[i].base + regions[i].length <= HighestUsable(regions)
    ensures HighestUsable(regions) == 0 ||
            exists i :: 0 <= i < |regions| && regions[i].usable &&
                        regions[i].base + regions[i].length == HighestUsable(regions)
  {
    if regions != [] {
      var front := regions[..|regions| - 1];
      HighestEnds(front);
      assert forall i :: 0 <= i < |front| ==> front[i] == regions[i];
    }
  }

  lemma UsableBelowHighest(regions: seq<Region>, f: nat)
    requires Usable(regions, |regions|, f)
    ensures f < HighestUsable(regions) / 4096
  {
    HighestEnds(regions);
    var i :| 0 <= i < |regions| && regions[i].usable && regions[i].FirstFrame() <= f < regions[i].EndFrame();
    assert regions[i].EndFrame() <= HighestUsable(regions) / 4096;
  }

  class FrameAllocator {
    const bitmap: array<bv8>
    var freeMemory: int
    var totalPages: nat

    ghost predicate Ready()
      reads `totalPages
    {
      bitmap.Length == BITMAP_SIZE && totalPages <= FRAMES
    }

    /** `bitmap_test` */
    predicate InUse(f: nat)
      requires bitmap.Length == BITMAP_SIZE && f < FRAMES
      reads bitmap
    {
      Test(bitmap[f / 8], f)
    }

    /** The frames the bitmap has free. */
    ghost function Free(): (s: set<nat>)
      requires Ready()
      reads `totalPages, bitmap
      ensures forall f: nat :: f in s <==> f < totalPages && !InUse(f)
    {
      set f: nat | f < totalPages && !InUse(f)
    }

    /** The counter counts the clear bits, and no frame below 1 MB is free. */
    ghost predicate Valid()
      reads this, bitmap
    {
      Ready() && freeMemory == 4096 * |Free()| && forall f :: f in Free() ==> f >= LOW_FRAMES
    }

    /** `bitmap_set` */
    method Occupy(f: nat)
      requires Ready() && f < FRAMES
      modifies bitmap
      ensures Free() == old(Free()) - {f}
      ensures forall x :: 0 <= x < FRAMES ==> InUse(x) == (x == f || old(InUse(x)))
    {
      hide Set, Test;
      bitmap[f / 8] := Set(bitmap[f / 8], f);
      forall x | 0 <= x < FRAMES ensures InUse(x) == (x == f || old(InUse(x))) {
        SetBit(old(bitmap[f / 8]), f, x);
      }
    }

    /** `bitmap_clear` */
    method Vacate(f: nat)
      requires Ready() && f < FRAMES
      modifies bitmap
      ensures Free() == if f < totalPages then old(Free()) + {f} else old(Free())
      ensures forall x :: 0 <= x < FRAMES ==> InUse(x) == (x != f && old(InUse(x)))
    {
      hide Clear, Test;
      bitmap[f / 8] := Clear(bitmap[f / 8], f);
      forall x | 0 <= x < FRAMES ensures InUse(x) == (x != f && old(InUse(x))) {
        ClearBit(old(bitmap[f / 8]), f, x);
      }
    }

    /**
     * `pmm_alloc_page`: the lowest free frame, as an address; null means exactly that there is none. No
     * frame in use is handed out, and none below 1 MB.
     */
    method AllocPage() returns (addr: nat)
      requires Valid()
      modifies this`freeMemory, bitmap
      ensures Valid()
      ensures addr == 0 <==> old(Free()) == {}
      ensures addr == 0 ==> Free() == old(Free()) && freeMemory == old(freeMemory)
      ensures addr != 0 ==>
                && addr % 4096 == 0 && addr >= 0x100000 && addr / 4096 < FRAMES
                && addr / 4096 in old(Free()) && Free() == old(Free()) - {addr / 4096}
                && (forall f :: f in old(Free()) ==> addr / 4096 <= f)
                && freeMemory == old(freeMemory) - 4096
    {
      hide InUse;
      var f := 0;
      while f < totalPages
        invariant f <= totalPages
        invariant forall x :: 0 <= x < f ==> InUse(x)
      {
        if !InUse(f) {
          ghost var before := Free();
          assert f in before;
          Occupy(f);
          assert |before - {f}| == |before| - 1;
          freeMemory := freeMemory - 4096;
          return f * 4096;
        }
        f := f + 1;
      }
      return 0;
    }

    /**
     * `pmm_free_page`: the frame becomes free. The counter and the reserved first megabyte survive exactly when the
     * frame is one the allocator hands out, or was free already.
     */
    method FreePage(addr: nat)
      requires Valid() && addr / 4096 < FRAMES
      modifies this`freeMemory, bitmap
      ensures Ready() && Free() == if addr / 4096 < totalPages then old(Free()) + {addr / 4096} else old(Free())
      ensures freeMemory == old(freeMemory) + if old(InUse(addr / 4096)) then 4096 else 0
      ensures Valid() <==> LOW_FRAMES <= addr / 4096 < totalPages || !old(InUse(addr / 4096))
    {
      var page := addr / 4096;
      ghost var before := Free();
      if InUse(page) {
        assert page !in before;
        hide InUse;
        Vacate(page);
        assert |before + {page}| == |before| + 1;
        freeMemory := freeMemory + 4096;
        assert page < LOW_FRAMES && page < totalPages ==> page in Free();
      } else {
        assert page < totalPages ==> page in before;
        assert page < totalPages ==> before + {page} == before;
      }
    }

    /** The page loop over one usable region; none of its frames is free yet. */
    method VacateRegion(r: Region)
      requires Ready() && r.Aligned() && freeMemory == 4096 * |Free()|
      requires forall f :: r.FirstFrame() <= f < r.EndFrame() ==> f !in Free()
      modifies this`freeMemory, bitmap
      ensures freeMemory == 4096 * |Free()|
      ensures forall f :: f in Free() <==> f in old(Free()) || (r.FirstFrame() <= f < r.EndFrame() && f < totalPages)
    {
      hide InUse;
      var j := 0;
      while j < r.length
        invariant 0 <= j && j % 4096 == 0 && j <= r.length && freeMemory == 4096 * |Free()|
        invariant forall f :: f in Free() <==>
                    f in old(Free()) || (r.FirstFrame() <= f < r.FirstFrame() + j / 4096 && f < totalPages)
      {
        var page := (r.base + j) / 4096;
        assert page == r.FirstFrame() + j / 4096;
        if page < totalPages {
          ghost var before := Free();
          assert page !in before;
          Vacate(page);
          assert |before + {page}| == |before| + 1;
          freeMemory := freeMemory + 4096;
        }
        j := j + 4096;
      }
    }

    /**
     * `pmm_init`: the free frames are the frames of usable regions that the bitmap covers, from 1 MB
     * on.
     */
    constructor (regions: seq<Region>)
      requires WellFormed(regions)
      ensures Valid() && fresh(bitmap)
      ensures totalPages == if HighestUsable(regions) / 4096 > FRAMES then FRAMES else HighestUsable(regions) / 4096
      ensures totalPages == 0 || totalPages == FRAMES ||
              exists i :: 0 <= i < |regions| && regions[i].usable && totalPages == regions[i].EndFrame()
      ensures forall f: nat :: f in Free() <==> LOW_FRAMES <= f < FRAMES && Usable(regions, |regions|, f)
    {
      var highest := 0;
      var i := 0;
      while i < |regions|
        invariant 0 <= i <= |regions| && highest == HighestUsable(regions[..i])
      {
        assert regions[..i + 1][..i] == regions[..i];
        if regions[i].usable {
          var top := regions[i].base + regions[i].length;
          if top > highest {
            highest := top;
          }
        }
        i := i + 1;
      }
      assert regions[..i] == regions;
      bitmap := new bv8[16384](_ => 0xFF);
      totalPages := if highest / 4096 > FRAMES then FRAMES else highest / 4096;
      freeMemory := 0;
      new;
      NothingFree();
      ReleaseUsable(regions);
      ReserveLow();
      HighestEnds(regions);
      forall f: nat | Usable(regions, |regions|, f) ensures f < HighestUsable(regions) / 4096 {
        UsableBelowHighest(regions, f);
      }
    }

    lemma NothingFree()
      requires Ready() && forall k :: 0 <= k < bitmap.Length ==> bitmap[k] == 0xFF
      ensures Free() == {}
    {
    }

    method ReleaseUsable(regions: seq<Region>)
      requires WellFormed(regions) && Ready() && freeMemory == 0 && Free() == {}
      modifies this`freeMemory, bitmap
      ensures freeMemory == 4096 * |Free()|
      ensures forall f: nat :: f in Free() <==> f < totalPages && Usable(regions, |regions|, f)
    {
      var i := 0;
      while i < |regions|
        invariant 0 <= i <= |regions| && freeMemory == 4096 * |Free()|
        invariant forall f: nat :: f in Free() <==> f < totalPages && Usable(regions, i, f)
      {
        ghost var before := Free();
        if regions[i].usable {
          forall f | regions[i].FirstFrame() <= f < regions[i].EndFrame() ensures f !in Free() {
            assert !Usable(regions, i, f);
          }
          VacateRegion(regions[i]);
        }
        forall f: nat ensures f in Free() <==> f < totalPages && Usable(regions, i + 1, f) {
          UsableNext(regions, i, f);
        }
        i := i + 1;
      }
    }

    /** The loop that takes the first megabyte out of use. */
    method ReserveLow()
      requires Ready() && freeMemory == 4096 * |Free()|
      modifies this`freeMemory, bitmap
      ensures Valid() && forall f :: f in Free() <==> f in old(Free()) && f >= LOW_FRAMES
    {
      hide InUse;
      var page := 0;
      while page < LOW_FRAMES && page < totalPages
        invariant page <= LOW_FRAMES && freeMemory == 4096 * |Free()|
        invariant forall f :: f in Free() <==> f in old(Free()) && f >= page
      {
        if !InUse(page) {
          ghost var before := Free();
          assert page in before;
          Occupy(page);
          assert |before - {page}| == |before| - 1;
          freeMemory := freeMemory - 4096;
        }
        page := page + 1;
      }
    }
  }

  lemma UsableNext(regions: seq<Region>, i: nat, f: nat)
    requires i < |regions|
    ensures Usable(regions, i + 1, f) <==>
            Usable(regions, i, f) || (regions[i].usable && regions[i].FirstFrame() <= f < regions[i].EndFrame())
  {
  }
}
