/** The heap of kernel/mem/heap.c over the break of kernel/arch/x86_64/mem/vmm.c: kmalloc's addresses
    count from KRNL_HEAP_START, and it asks ksbrk for one page at a time. */
module HeapBreak {
  import opened Common
  import opened Heap
  import opened KernelHeap
  import Vmm

  /** The request finds nothing in its bin and too little in the last chunk. */
  predicate NeedsPage(st: HeapState, size: nat)
    requires size <= MAX_SIZE
  {
    Next(st.w, Head(BinFor(Documented, size))) == Head(BinFor(Documented, size))
    && TooShort(st.w, st.last, GetSize(size))
  }

  /** kmalloc takes another page exactly where ksbrk's assertions let one pass, and panics where they
      do not. */
  lemma GrowsWhereKsbrkPasses(st: HeapState, size: nat)
    requires 0 < size <= MAX_SIZE && 0 <= st.brk <= HEAP_SIZE
    ensures var brk, (st1, r) := Vmm.KRNL_HEAP_START + st.brk, Malloc(Documented, st, size);
            && (r == Panic <==> NeedsPage(st, size) && !Vmm.PassesLimit(brk, PAGE_SIZE))
            && st1.brk == if NeedsPage(st, size) && Vmm.PassesLimit(brk, PAGE_SIZE) then st.brk + PAGE_SIZE else st.brk
    ensures Vmm.KRNL_HEAP_START + HEAP_SIZE == Vmm.KRNL_HEAP_END
  {
    hide Taken, Cut, TooShort, Next, GetSize, GetBinIdx;
    MallocIs(st, size);
  }
}
