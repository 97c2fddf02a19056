/** Whole runs of the kernel heap: allocations, frees and writes against the map of live allocations. */
module HeapRuns {
  import opened Bytes
  import opened HeapList
  import opened Heap
  import Paging

  /** `Write` spells headers inside an allocation. */
  datatype Op = Alloc(size: nat) | Free(ptr: nat) | Write(ptr: nat, bytes: Memory)

  predicate WellFormed(op: Op) {
    match op
    case Alloc(size) => size <= MAX_REQUEST
    case Free(ptr) => ptr < TWO64
    case Write(_, bytes) => forall k :: k in bytes ==> Spellable(bytes[k])
  }

  /** What an operation that answers `r` does to the live allocations. */
  ghost predicate Applied(m: map<nat, nat>, op: Op, r: nat, m': map<nat, nat>) {
    match op
    case Alloc(size) =>
      if r == 0 then m' == m else r !in m && r in m' && size <= m'[r] < size + 63 && m' == m[r := m'[r]]
    case Free(ptr) => m' == m - {ptr}
    case Write(_, _) => m' == m
  }

  /** Allocations are aligned and apart, headers included. */
  ghost predicate Separate(m: map<nat, nat>) {
    && (forall p :: p in m ==> p % 16 == 0 && HEAP_START + 32 <= p && p + m[p] <= HEAP_CAP)
    && (forall p, q :: p in m && q in m && p < q ==> p + m[p] <= q - 32)
  }

  lemma ValidSeparate(h: KernelHeap)
    requires h.Valid()
    ensures Separate(h.Allocated())
  {
    hide Laid, Live, Rep;
    forall p | p in Live(h.list) ensures p % 16 == 0 && HEAP_START + 32 <= p && p + Live(h.list)[p] <= HEAP_CAP {
      var i := LiveIndex(h.list, p);
      LiveBlock(h.list, h.exact, h.limit, i);
      LaidAt(h.list, HEAP_START, false, h.exact, h.limit, i);
    }
    forall p, q | p in Live(h.list) && q in Live(h.list) && p < q ensures p + Live(h.list)[p] <= q - 32 {
      LiveDisjoint(h.list, HEAP_START, false, h.exact, h.limit, p, q);
    }
  }

  /** A write may go into what was asked for of a live allocation. */
  predicate Permitted(live: map<nat, nat>, ptr: nat, bytes: Memory) {
    ptr in live && forall k :: k in bytes ==> ptr - 32 < k < ptr + live[ptr]
  }

  /** The live pointers and the sizes asked for. */
  ghost predicate Ledger(live: map<nat, nat>, m: map<nat, nat>) {
    live.Keys == m.Keys && forall p :: p in live ==> live[p] <= m[p]
  }

  /**
   * Every run, until the kernel faults or the program misbehaves by writing outside its allocations, or by freeing
   * what is no allocation after it wrote headers: each operation does to the live allocations what it should, and
   * all along they are aligned and apart.
   */
  method Run(h: KernelHeap, vm: Paging.AddressSpace, ops: seq<Op>)
    returns (done: nat, results: seq<nat>, live: map<nat, nat>, ghost trace: seq<map<nat, nat>>)
    requires h.Valid() && h.genuine && h.Allocated() == map[] && h.Room(vm)
    requires forall i :: 0 <= i < |ops| ==> WellFormed(ops[i])
    modifies h, vm`mem, vm`tables, vm.pmm`freeMemory, vm.pmm.bitmap
    ensures done <= |ops| && |results| == done && |trace| == done + 1 && trace[0] == map[]
    ensures forall i :: 0 <= i < done ==> Applied(trace[i], ops[i], results[i], trace[i + 1])
    ensures forall i :: 0 <= i <= done ==> Separate(trace[i])
    ensures done == |ops| ==> h.Valid() && h.Allocated() == trace[done] && Ledger(live, trace[done])
  {
    hide KernelHeap.Valid, KernelHeap.Room, KernelHeap.Allocated, Separate, Applied, Ledger, WellFormed;
    done, results, live, trace := 0, [], map[], [map[]];
    var written := false;
    ValidSeparate(h);
    NothingLive();
    while done < |ops|
      invariant done <= |ops| && h.Valid() && h.Room(vm) && (!written ==> h.genuine)
      invariant |results| == done && |trace| == done + 1 && trace[0] == map[] && trace[done] == h.Allocated()
      invariant Ledger(live, h.Allocated())
      invariant forall i :: 0 <= i < done ==> Applied(trace[i], ops[i], results[i], trace[i + 1])
      invariant forall i :: 0 <= i <= done ==> Separate(trace[i])
    {
      var ok, r, live' := Step(h, vm, ops[done], live, written);
      if !ok {
        return;
      }
      ValidSeparate(h);
      written := written || ops[done].Write?;
      results, live, trace := results + [r], live', trace + [h.Allocated()];
      done := done + 1;
    }
  }

  lemma NothingLive()
    ensures Ledger(map[], map[])
  {
  }

  /** One operation; `ok` is false when the run ends here. */
  method Step(h: KernelHeap, vm: Paging.AddressSpace, op: Op, live: map<nat, nat>, written: bool)
    returns (ok: bool, r: nat, live': map<nat, nat>)
    requires h.Valid() && h.Room(vm) && WellFormed(op) && Ledger(live, h.Allocated()) && (!written ==> h.genuine)
    modifies h, vm`mem, vm`tables, vm.pmm`freeMemory, vm.pmm.bitmap
    ensures ok ==> h.Valid() && h.Room(vm) && Ledger(live', h.Allocated())
    ensures ok ==> Applied(old(h.Allocated()), op, r, h.Allocated())
    ensures ok && !written && !op.Write? ==> h.genuine
  {
    hide KernelHeap.Valid, KernelHeap.Room, Live, NoFit, Harmless, KernelHeap.Starved, KernelHeap.Faults;
    live', r := live, 0;
    match op
    case Alloc(size) =>
      var fault;
      ghost var i;
      r, fault, i := h.Kmalloc(size, vm);
      AlignUpExact(size);
      ok := !fault;
      if r != 0 {
        live' := live[r := size];
      }
    case Free(ptr) =>
      ok := ptr in live || !written;
      if ok {
        h.Kfree(ptr);
        live' := live - {ptr};
        assert ptr !in live ==> old(h.Allocated()) - {ptr} == old(h.Allocated());
      }
    case Write(ptr, bytes) =>
      ok := Permitted(live, ptr, bytes);
      if ok {
        h.Scribble(ptr, bytes);
      }
  }
}
