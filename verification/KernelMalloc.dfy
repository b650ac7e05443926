/** `malloc` with a physical address: the heap and the page tables meet. */
module KernelMalloc {
  import opened Words
  import opened KernelHeap
  import opened HeapMemory
  import opened HeapRuns
  import opened PageWalk
  import opened PageSpec
  import opened VirtualMem

  /** Every address of [lo, hi) is mapped through a table that the self-map shows. This is much less
      than `Backs`: nothing is asked of the other slots or of the frame allocator. */
  ghost predicate Shown(vm: Vm, lo: int, hi: int)
  {
    && SelfMapped(vm.mem, vm.dir)
    && forall a: Word | lo <= a < hi ::
         Small(vm.mem, vm.dir, DirIndex(a)) && Walk(vm.mem, vm.dir, a).Some?
  }

  /** In the state after the heap-window loop of `Init` the whole heap is shown. */
  lemma BacksShows(vm: Vm, first: int, n: nat, lo: int, hi: int)
    requires Backs(vm, first, n, lo, hi)
    ensures Shown(vm, lo, hi)
  {
    forall a: Word | lo <= a < hi
      ensures Small(vm.mem, vm.dir, DirIndex(a)) && Walk(vm.mem, vm.dir, a).Some?
    {
      PageOf(a, first, n, lo, hi);
      SlotOfPage(a);
      WalkIsPage(vm, a);
      assert PageFrame(vm, a / PAGE_SIZE).Some?;
    }
  }

  lemma ShownAt(vm: Vm, lo: int, hi: int, a: Word)
    requires Shown(vm, lo, hi) && lo <= a < hi
    ensures SelfMapped(vm.mem, vm.dir) && Small(vm.mem, vm.dir, DirIndex(a))
    ensures vm.mem[vm.dir][DirIndex(a)].frame < |vm.mem| && Walk(vm.mem, vm.dir, a).Some?
  {
  }

  /** Every payload starts inside the heap, an empty one too. */
  lemma PayloadInside(h: Heap, request: Word, p: Word, h': Heap)
    requires HeapInv(h) && MallocStep(h, request, Some(p), h')
    ensures h.lo <= p < h.hi
  {
    MallocGives(h, request, p, h');
  }

  lemma HeapOf(heap: KernelHeap)
    requires heap.Valid()
    ensures HeapInv(heap.View()) && heap.View().lo == heap.startAddress && heap.View().hi == heap.endAddress
  {
  }

  lemma ViewOf(virtMem: VirtualMem)
    ensures virtMem.View().mem == virtMem.machine.mem && virtMem.View().dir == virtMem.machine.cr3
  {
  }

  /** `malloc`. The physical address asked for is the one the hardware gives the result. */
  method Malloc(heap: KernelHeap, virtMem: VirtualMem, request: Word, wantPhys: bool)
    returns (r: Option<Word>, phys: Option<int>)
    requires heap.Valid() && (wantPhys ==> Shown(virtMem.View(), heap.startAddress, heap.endAddress))
    // Arrays of different element types; frames compare them as objects.
    requires heap.ram as object != virtMem.phyMem.memoryArray
    modifies heap`blocks, heap.ram, virtMem.machine`mem, virtMem.phyMem, virtMem.phyMem.memoryArray
    ensures heap.Valid() && MallocStep(old(heap.View()), request, r, heap.View())
    ensures virtMem.View() == old(virtMem.View())
    ensures wantPhys && r.Some? ==>
      SelfMapped(virtMem.machine.mem, virtMem.machine.cr3) && phys.Some?
      && phys == Walk(virtMem.machine.mem, virtMem.machine.cr3, r.value)
    ensures !(wantPhys && r.Some?) ==> phys == None
  {
    hide *;
    ghost var h, vm := heap.View(), virtMem.View();
    HeapOf(heap);
    ViewOf(virtMem);
    r := heap.InternalAllocate(request);
    phys := None;
    if wantPhys && r.Some? {
      PayloadInside(h, request, r.value, heap.View());
      ShownAt(vm, heap.startAddress, heap.endAddress, r.value);
      var at := virtMem.PhysicalAddress(r.value);
      ViewOf(virtMem);
      phys := Some(at);
    }
  }
}
