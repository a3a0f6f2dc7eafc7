/** The heap with lines 130, 266 and 268 of kernel/mem/heap.c and line 26 of include/tmos/ds/list.h
    as they stand: runs of a client from heap_init in which a block loses its contents and a freed
    chunk is lost to its list. */
module HeapAsWritten {
  import opened Common
  import opened Heap
  import opened KernelHeap
  import opened HeapRuns

  // ----- two cuts in a row -----

  /** The first cut leaves the new last chunk linked to the block handed out, so the second one stores
      into the first word of that block, whatever its owner put there. */
  lemma SecondCutOverwrites(w: WordMap, c: int, g1: bool, l1: int, v: int, g2: bool, l2: int)
    requires l1 >= 24 && l1 % 8 == 0 && l2 >= 24 && l2 % 8 == 0
    requires var w1 := Cut(AsWritten, w, c, g1, l1)[c + 8 := v]; l2 + 32 <= Size(w1, c + 8 + l1) < HEAP_SIZE
    ensures var w1, d := Cut(AsWritten, w, c, g1, l1)[c + 8 := v], c + 8 + l1;
            && Get(Cut(AsWritten, w1, d, g2, l2), c + 8) == c + 16 + l1 + l2
            && (SameBelow(w1, Cut(AsWritten, w1, d, g2, l2), d) <==> v == c + 16 + l1 + l2)
  {
    hide Size, Used;
    var w1, d := Cut(AsWritten, w, c, g1, l1)[c + 8 := v], c + 8 + l1;
    CutAsWrittenLinksBack(w, c, g1, l1);
    assert Next(w1, d) == c;
    CutAsWrittenExactly(w1, d, g2, l2);
    CutStores(w1, d, g2, l2);
  }

  /** The word that a cut as written stores below the last chunk. */
  lemma CutStores(w: WordMap, c: int, grow: bool, left: int)
    requires left >= 24 && Next(w, c) + 8 < c
    requires left % 8 == 0 && left + 32 <= Size(w, c) < HEAP_SIZE
    ensures Get(Cut(AsWritten, w, c, grow, left), Next(w, c) + 8) == c + 8 + left
  {
    hide Size;
    var w0 := if grow then Grown(w, c) else w;
    GrownHeader(w, c);
    SplitWritesAbove(w0, c, left);
    HeaderWritesOnly(SplitFront(AsWritten, w0, c, left), c);
  }

  /** Apart from that word, a cut as written does to the chunks what it should. */
  lemma CutAsWrittenHeaders(w: WordMap, c: int, grow: bool, left: int)
    requires 24 <= left && left % 8 == 0 && left + 32 <= Size(w, c) < HEAP_SIZE && !Used(w, c)
    requires Next(w, c) + 8 != c && Next(w, c) + 8 != c + 8 + left
    ensures var w1, right := Cut(AsWritten, w, c, grow, left), c + 8 + left;
            && Size(w1, c) == left && Used(w1, c)
            && Size(w1, right) == Size(w, c) + (if grow then PAGE_SIZE else 0) - left - 8 && !Used(w1, right)
            && forall a :: a < c && a != Next(w, c) + 8 ==> Get(w1, a) == Get(w, a)
  {
    GrownHeader(w, c);
    GrownWrites(w, c);
    hide Size, Used, SplitFront, Grown, Next;
    SplitAsWrittenHeaders(if grow then Grown(w, c) else w, c, left);
  }

  lemma GrownWrites(w: WordMap, c: int)
    ensures Next(Grown(w, c), c) == Next(w, c) && forall a :: a != c ==> Get(Grown(w, c), a) == Get(w, a)
  {
  }

  lemma SplitAsWrittenHeaders(w: WordMap, c: int, left: int)
    requires 24 <= left && left % 8 == 0 && left + 32 <= Size(w, c) < 2 * HEAP_SIZE && !Used(w, c)
    requires Next(w, c) + 8 != c && Next(w, c) + 8 != c + 8 + left
    ensures var w1, right := SetUsed(SplitFront(AsWritten, w, c, left), c), c + 8 + left;
            && Size(w1, c) == left && Used(w1, c)
            && Size(w1, right) == Size(w, c) - left - 8 && !Used(w1, right)
            && forall a :: a < c && a != Next(w, c) + 8 ==> Get(w1, a) == Get(w, a)
  {
    hide Size, Used, SplitFront, AddFront, SetUsed, Next;
    SplitWritesAbove(w, c, left);
    SplitHeaders(w, c, left);
    LinkWrites(SplitFront(Documented, w, c, left), c, c + 8 + left);
    LinkedSplit(w, c, left);
    SameHeaders(SplitFront(Documented, w, c, left), SplitFront(AsWritten, w, c, left), c, c + 8 + left);
  }

  lemma LinkedSplit(w: WordMap, c: int, left: int)
    ensures SplitFront(AsWritten, w, c, left)
            == AddFront(AsWritten, SplitFront(Documented, w, c, left), c, c + 8 + left)
  {
  }

  lemma LinkWrites(w: WordMap, head: int, node: int)
    ensures var w1 := AddFront(AsWritten, w, head, node);
            forall a :: a != Next(w, head) + 8 && a != node + 8 && a != node + 16 && a != head + 16 ==>
              Get(w1, a) == Get(w, a)
  {
  }

  lemma SameHeaders(w: WordMap, w1: WordMap, c: int, d: int)
    requires Get(w1, c) == Get(w, c) && Get(w1, d) == Get(w, d) && c != d
    ensures Size(SetUsed(w1, c), c) == Size(SetUsed(w, c), c) && (Used(SetUsed(w1, c), c) <==> Used(SetUsed(w, c), c))
    ensures Size(SetUsed(w1, c), d) == Size(SetUsed(w, c), d) && (Used(SetUsed(w1, c), d) <==> Used(SetUsed(w, c), d))
    ensures forall a :: a != c ==> Get(SetUsed(w1, c), a) == Get(w1, a)
  {
    hide Size, Used;
    HeaderWritesOnly(w, c);
    HeaderWritesOnly(w1, c);
    SameWord(w, w1, c);
    SameWord(SetUsed(w, c), SetUsed(w1, c), c);
    SameWord(SetUsed(w, c), SetUsed(w1, c), d);
  }

  lemma SameWord(w: WordMap, w1: WordMap, c: int)
    requires Get(w1, c) == Get(w, c)
    ensures Size(w1, c) == Size(w, c) && (Used(w1, c) <==> Used(w, c))
  {
  }

  // ----- runs from heap_init -----

  /** The size of the block kmalloc cuts for a request when its bin is empty. */
  function CutSize(size: nat): nat
    requires size <= 3584
  {
    AsWrittenIndexInTableExactly(size);
    BinSize(BinFor(AsWritten, size))
  }

  lemma CutSizeIs(size: nat)
    requires size <= 3584
    ensures BinFor(AsWritten, size) < HEAP_NUM_BINS
    ensures 32 <= CutSize(size) <= MAX_SIZE && CutSize(size) % 8 == 0 && CutSize(size) > size
    ensures IsBinSize(CutSize(size)) && GetBinIdx(Documented, CutSize(size)) == BinFor(AsWritten, size)
  {
    hide BinSize, GetSize, GetBinIdx;
    GetSizeIsLeast(size);
    AsWrittenIndexInTableExactly(size);
    var i := GetBinIdx(Documented, GetSize(size));
    BinIndexInverts(i);
    BinIndexInverts(BinFor(AsWritten, size));
    NextBinIsLarger(i);
    SecondBin(BinFor(AsWritten, size));
  }

  lemma SecondBin(i: nat)
    requires i < HEAP_NUM_BINS && BinSize(i) > 24
    ensures BinSize(i) >= 32
  {
  }

  ghost predicate NoneListed(w: WordMap) {
    forall i: nat :: i < HEAP_NUM_BINS ==> Next(w, Head(i)) == Head(i)
  }

  /** After one allocation: a block of l bytes, and the last chunk behind it, linked to it. */
  ghost predicate OneBlock(st: HeapState, l: nat) {
    && 32 <= l <= MAX_SIZE && l % 8 == 0 && NoneListed(st.w)
    && st.brk == 2 * PAGE_SIZE && st.last == 8 + l
    && Size(st.w, 0) == l && Used(st.w, 0)
    && Size(st.w, 8 + l) == 2 * PAGE_SIZE - 16 - l && !Used(st.w, 8 + l) && Next(st.w, 8 + l) == 0
  }

  /** After two: the second block follows, and the first word of the first one is lost. */
  ghost predicate TwoBlocks(st: HeapState, l: nat, m: nat) {
    && 32 <= l <= MAX_SIZE && l % 8 == 0 && 32 <= m <= MAX_SIZE && m % 8 == 0 && NoneListed(st.w)
    && st.last == 16 + l + m && Get(st.w, st.last) >= 24
    && Size(st.w, 0) == l && Used(st.w, 0) && Size(st.w, 8 + l) == m && Used(st.w, 8 + l)
    && Get(st.w, 8) == st.last
  }

  lemma SizeBelowWord(w: WordMap, c: int)
    ensures Get(w, c) >= Size(w, c)
  {
  }

  lemma FirstAllocation(st: HeapState, n: nat)
    requires Initial(st) && 0 < n <= 3584
    ensures var (st1, grant) := Malloc(AsWritten, st, n);
            grant == Block(8) && OneBlock(st1, CutSize(n))
  {
    hide Cut, BinSize, GetSize, GetBinIdx, Size, Used;
    var l := CutSize(n);
    CutSizeIs(n);
    InitialInv(st);
    assert Next(st.w, Head(BinFor(AsWritten, n))) == Head(BinFor(AsWritten, n));
    assert !TooShort(st.w, 0, l);
    CutAsWrittenHeaders(st.w, 0, false, l);
    CutAsWrittenLinksBack(st.w, 0, false, l);
  }

  lemma SecondAllocation(st: HeapState, l: nat, n: nat)
    requires OneBlock(st, l) && 0 < n <= 3584
    ensures var (st1, grant) := Malloc(AsWritten, st, n);
            grant == Block(16 + l) && TwoBlocks(st1, l, CutSize(n))
  {
    hide Cut, BinSize, GetSize, GetBinIdx, Size, Used;
    var m, grow := CutSize(n), TooShort(st.w, 8 + l, CutSize(n));
    CutSizeIs(n);
    assert Next(st.w, Head(BinFor(AsWritten, n))) == Head(BinFor(AsWritten, n));
    CutAsWrittenHeaders(st.w, 8 + l, grow, m);
    CutStores(st.w, 8 + l, grow, m);
    var w1 := Cut(AsWritten, st.w, 8 + l, grow, m);
    SameWord(st.w, w1, 0);
    SizeBelowWord(w1, 16 + l + m);
  }

  lemma StoreInBlock(st: HeapState, l: nat, v: int)
    requires OneBlock(st, l)
    ensures OneBlock(st.(w := st.w[8 := v]), l)
  {
    hide Size, Used;
    SameWord(st.w, st.w[8 := v], 0);
    SameWord(st.w, st.w[8 := v], 8 + l);
  }

  lemma ReplayAppended(st: HeapState, requests: seq<Request>, r: Request)
    ensures Replay(AsWritten, st, requests + [r])
            == var (st1, events) := Replay(AsWritten, st, requests);
               var (st2, e) := Step(AsWritten, st1, events, r);
               (st2, events + [e])
  {
    hide Step;
    assert (requests + [r])[..|requests|] == requests;
  }

  lemma HeldAppended(events: seq<Event>, e: Event)
    ensures (events + [e])[..|events|] == events
    ensures e.Got? ==> Held(events + [e]) == Held(events)[e.ptr := e.size]
    ensures e.Gave? ==> Held(events + [e]) == Held(events) - {e.ptr}
    ensures e.Wrote? ==> Held(events + [e]) == Held(events)
    ensures e.Wrote? ==> Stored(events + [e]) == Stored(events)[e.addr := e.value]
    ensures e.Got? ==> Stored(events + [e]) == Stored(events)
  {
    assert (events + [e])[..|events|] == events;
  }

  /** A client allocates a block, stores v at its start and allocates another one: the store is lost,
      unless v happens to be the address of the last chunk. */
  lemma SecondAllocationLosesAStore(st: HeapState, n: nat, v: int, m: nat)
    requires Initial(st) && 8 <= n <= 3584 && 0 < m <= 3584
    ensures var (st1, events) := Replay(AsWritten, st, [Alloc(n), Write(8, 0, v), Alloc(m)]);
            && events == [Got(8, n), Wrote(8, v), Got(16 + CutSize(n), m)]
            && Held(events) == map[8 := n, 16 + CutSize(n) := m] && Stored(events) == map[8 := v]
            && Get(st1.w, 8) == st1.last
            && (Intact(st1.w, Held(events), Stored(events)) <==> v == st1.last)
  {
    hide Malloc, Size, Used, GetSize, BinSize, GetBinIdx;
    var l := CutSize(n);
    CutSizeIs(n);
    var r1, r2, r3 := Alloc(n), Write(8, 0, v), Alloc(m);
    FirstAllocation(st, n);
    var st1 := Malloc(AsWritten, st, n).0;
    assert Replay(AsWritten, st, []) == (st, []);
    ReplayAppended(st, [], r1);
    HeldAppended([], Got(8, n));
    assert [] + [r1] == [r1] && [] + [Got(8, n)] == [Got(8, n)];
    assert Replay(AsWritten, st, [r1]) == (st1, [Got(8, n)]);
    StoreInBlock(st1, l, v);
    var st2 := st1.(w := st1.w[8 := v]);
    ReplayAppended(st, [r1], r2);
    HeldAppended([Got(8, n)], Wrote(8, v));
    assert [r1] + [r2] == [r1, r2] && [Got(8, n)] + [Wrote(8, v)] == [Got(8, n), Wrote(8, v)];
    assert Replay(AsWritten, st, [r1, r2]) == (st2, [Got(8, n), Wrote(8, v)]);
    SecondAllocation(st2, l, m);
    var events := [Got(8, n), Wrote(8, v), Got(16 + l, m)];
    ReplayAppended(st, [r1, r2], r3);
    HeldAppended([Got(8, n), Wrote(8, v)], Got(16 + l, m));
    assert [r1, r2] + [r3] == [r1, r2, r3] && [Got(8, n), Wrote(8, v)] + [Got(16 + l, m)] == events;
    assert Within(Held(events), 8, 8);
  }

  // ----- list.h:26 -----

  /** Two blocks of one size, freed one after the other: the bin's list holds the second only, and the
      first, although free, is in no bin. */
  ghost predicate FirstLost(w: WordMap, bin: nat, first: int, second: int)
    requires bin < HEAP_NUM_BINS
  {
    && !Used(w, first) && !Used(w, second)
    && Next(w, Head(bin)) == second && Next(w, second) == Head(bin)
    && forall j: nat :: j < HEAP_NUM_BINS && j != bin ==> Next(w, Head(j)) == Head(j)
  }

  lemma FreesLoseTheFirst(st: HeapState, l: nat)
    requires TwoBlocks(st, l, l) && IsBinSize(l) && GetBinIdx(AsWritten, l) < HEAP_NUM_BINS
    ensures var (st1, ok1) := FreeBlock(AsWritten, st, 8);
            var (st2, ok2) := FreeBlock(AsWritten, st1, 16 + l);
            ok1 && ok2 && FirstLost(st2.w, GetBinIdx(AsWritten, l), 0, 8 + l)
  {
    hide Size, Used, IsBinSize, GetBinIdx;
    IndexPositive(l);
    var bin: nat := GetBinIdx(AsWritten, l);
    SizeBelowWord(st.w, st.last);
    FreedChunk(st.w, bin, 0, l, Head(bin));
    var w1 := Freed(AsWritten, st.w, Head(bin), 0);
    assert FreeBlock(AsWritten, st, 8) == (st.(w := w1), true);
    SameWord(st.w, w1, 8 + l);
    assert Get(w1, st.last) == Get(st.w, st.last);
    FreedChunk(w1, bin, 8 + l, l, 0);
    var w2 := Freed(AsWritten, w1, Head(bin), 8 + l);
    assert FreeBlock(AsWritten, st.(w := w1), 16 + l) == (st.(w := w2), true);
    SameWord(w1, w2, 0);
    forall j: nat | j < HEAP_NUM_BINS && j != bin
      ensures Next(w2, Head(j)) == Head(j)
    {
      assert Next(st.w, Head(j)) == Head(j);
    }
  }

  lemma IndexPositive(l: nat)
    requires IsBinSize(l)
    ensures GetBinIdx(AsWritten, l) >= 0
  {
  }

  /** A client allocates two blocks of one size and frees both: the second is first in its bin, the
      first is lost. */
  lemma SecondReleaseLosesTheFirst(st: HeapState, n: nat)
    requires Initial(st) && 0 < n <= 3328
    ensures var l := CutSize(n);
            var (st1, events) := Replay(AsWritten, st, [Alloc(n), Alloc(n), Release(8), Release(16 + l)]);
            && events == [Got(8, n), Got(16 + l, n), Gave(8), Gave(16 + l)]
            && 0 <= GetBinIdx(AsWritten, l) < HEAP_NUM_BINS && FirstLost(st1.w, GetBinIdx(AsWritten, l), 0, 8 + l)
  {
    hide Malloc, FreeBlock, Size, Used, GetSize, BinSize, IsBinSize, GetBinIdx;
    var l := CutSize(n);
    CutSizeIs(n);
    AsWrittenFreeInTableExactly(n);
    IndexPositive(l);
    TwoAllocations(st, n);
    var (st2, events2) := Replay(AsWritten, st, [Alloc(n), Alloc(n)]);
    FreesLoseTheFirst(st2, l);
    ReplayAppended(st, [Alloc(n), Alloc(n)], Release(8));
    HeldAppended(events2, Gave(8));
    assert [Alloc(n), Alloc(n)] + [Release(8)] == [Alloc(n), Alloc(n), Release(8)];
    ReplayAppended(st, [Alloc(n), Alloc(n), Release(8)], Release(16 + l));
    assert [Alloc(n), Alloc(n), Release(8)] + [Release(16 + l)] == [Alloc(n), Alloc(n), Release(8), Release(16 + l)];
    assert events2 + [Gave(8)] + [Gave(16 + l)] == [Got(8, n), Got(16 + l, n), Gave(8), Gave(16 + l)];
  }

  lemma TwoAllocations(st: HeapState, n: nat)
    requires Initial(st) && 0 < n <= 3584
    ensures var l := CutSize(n);
            var (st1, events) := Replay(AsWritten, st, [Alloc(n), Alloc(n)]);
            && events == [Got(8, n), Got(16 + l, n)] && Held(events) == map[8 := n, 16 + l := n]
            && TwoBlocks(st1, l, l)
  {
    hide Malloc, Size, Used, GetSize, BinSize, GetBinIdx;
    CutSizeIs(n);
    FirstAllocation(st, n);
    assert Replay(AsWritten, st, []) == (st, []);
    ReplayAppended(st, [], Alloc(n));
    HeldAppended([], Got(8, n));
    assert [] + [Alloc(n)] == [Alloc(n)] && [] + [Got(8, n)] == [Got(8, n)];
    SecondAllocation(Malloc(AsWritten, st, n).0, CutSize(n), n);
    ReplayAppended(st, [Alloc(n)], Alloc(n));
    HeldAppended([Got(8, n)], Got(16 + CutSize(n), n));
    assert [Alloc(n)] + [Alloc(n)] == [Alloc(n), Alloc(n)];
    assert [Got(8, n)] + [Got(16 + CutSize(n), n)] == [Got(8, n), Got(16 + CutSize(n), n)];
  }

  /** Freeing the chunk c of l bytes into a bin whose first chunk is `first`. */
  lemma FreedChunk(w: WordMap, bin: nat, c: int, l: int, first: int)
    requires bin < HEAP_NUM_BINS && c >= 0 && l >= 32 && Size(w, c) == l && Used(w, c) && Next(w, Head(bin)) == first
    requires first == Head(bin) || first + 24 <= c
    ensures var w1 := Freed(AsWritten, w, Head(bin), c);
            && !Used(w1, c) && Size(w1, c) == l && Next(w1, Head(bin)) == c && Next(w1, c) == Head(bin)
            && forall a :: a != c && a != c + 8 && a != c + 16 && a != c + l && a != first + 8
                           && a != Head(bin) + 16 ==>
                 Get(w1, a) == Get(w, a)
  {
    FlagsKeepSize(w, c);
    hide Size, Used;
    var w0 := WithFooter(SetFree(w, c), c);
    SameWord(SetFree(w, c), w0, c);
    SameWord(w0, Freed(AsWritten, w, Head(bin), c), c);
  }
}
