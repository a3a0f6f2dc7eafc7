/** heap_init, kmalloc and kfree of kernel/mem/heap.c over the chunk and list operations of
    module Heap.  Addresses count bytes from the start of the heap. */
module KernelHeap {
  import opened Common
  import opened Heap

  // ----- the layout -----

  /** KRNL_HEAP_END - KRNL_HEAP_START */
  const HEAP_SIZE := 0x100_0000_0000

  /** Difference of two unsigned words. */
  function Sub(a: int, b: int): int {
    (a - b) % 0x1_0000_0000_0000_0000
  }

  /** _chunk_addr_next: where the chunk at c stops. */
  function End(w: WordMap, c: int): int {
    c + 8 + Size(w, c)
  }

  /** The list head of bin i; the bins lie outside the heap. */
  function Head(i: nat): int {
    -32 * (i + 1)
  }

  function Last(chunks: seq<int>): int
    requires chunks != []
  {
    chunks[|chunks| - 1]
  }

  function After(chunks: seq<int>, brk: int, k: nat): int {
    if k + 1 < |chunks| then chunks[k + 1] else brk
  }

  ghost predicate Fits(w: WordMap, chunks: seq<int>, brk: int, k: nat)
    requires k < |chunks|
  {
    Size(w, chunks[k]) >= 24 && End(w, chunks[k]) == After(chunks, brk, k)
  }

  /** The chunks lie end to end from the start of the heap to the break. */
  ghost predicate Tiled(w: WordMap, chunks: seq<int>, brk: int) {
    && chunks != [] && chunks[0] == 0
    && forall k: nat :: k < |chunks| ==> Fits(w, chunks, brk, k)
  }

  /** A free chunk as it hangs in bin i: of that size, with the size again in its footer. */
  ghost predicate Filed(w: WordMap, chunks: seq<int>, i: nat, c: int)
    requires chunks != [] && i < HEAP_NUM_BINS
  {
    c in chunks && c != Last(chunks) && !Used(w, c) && Size(w, c) == BinSize(i) && Get(w, c + Size(w, c)) == Size(w, c)
  }

  ghost predicate Binned(w: WordMap, chunks: seq<int>, i: nat, list: seq<int>)
    requires chunks != [] && i < HEAP_NUM_BINS
  {
    && Ring(w, Head(i), list)
    && (forall k :: 0 <= k < |list| ==> Filed(w, chunks, i, list[k]))
    && (forall j, k :: 0 <= j < k < |list| ==> list[j] != list[k])
  }

  /** Every chunk but the last has a bin's size, and hangs in that bin when it is free. */
  ghost predicate Accounted(w: WordMap, bins: seq<seq<int>>, c: int)
    requires |bins| == HEAP_NUM_BINS
  {
    IsBinSize(Size(w, c)) && (!Used(w, c) ==> c in bins[GetBinIdx(Documented, Size(w, c))])
  }

  /** The last chunk is free and never shorter than a page less its header. */
  ghost predicate Roomy(w: WordMap, last: int) {
    !Used(w, last) && Size(w, last) >= PAGE_SIZE - 8
  }

  ghost predicate Inv(w: WordMap, chunks: seq<int>, brk: int, bins: seq<seq<int>>) {
    && Tiled(w, chunks, brk)
    && Roomy(w, Last(chunks))
    && |bins| == HEAP_NUM_BINS
    && (forall i: nat :: i < HEAP_NUM_BINS ==> Binned(w, chunks, i, bins[i]))
    && (forall c :: c in chunks && c != Last(chunks) ==> Accounted(w, bins, c))
  }

  lemma InOrder(w: WordMap, chunks: seq<int>, brk: int, i: nat, j: nat)
    requires Tiled(w, chunks, brk) && i < j < |chunks|
    ensures End(w, chunks[i]) <= chunks[j]
    decreases j - i
  {
    assert Fits(w, chunks, brk, i) && Fits(w, chunks, brk, i + 1);
    if i + 1 < j {
      InOrder(w, chunks, brk, i + 1, j);
    }
  }

  /** A chunk lies inside the heap. */
  lemma Inside(w: WordMap, chunks: seq<int>, brk: int, c: int)
    requires Tiled(w, chunks, brk) && c in chunks
    ensures 0 <= c && Size(w, c) >= 24 && End(w, c) <= brk
    ensures c != Last(chunks) ==> End(w, c) <= Last(chunks)
    ensures c != Last(chunks) ==> End(w, c) in chunks
  {
    var k: nat :| k < |chunks| && chunks[k] == c;
    assert Fits(w, chunks, brk, 0) && Fits(w, chunks, brk, k) && Fits(w, chunks, brk, |chunks| - 1);
    if k > 0 {
      InOrder(w, chunks, brk, 0, k);
    }
    if k < |chunks| - 1 {
      InOrder(w, chunks, brk, k, |chunks| - 1);
      assert chunks[k + 1] == End(w, c);
    }
  }

  /** Two chunks do not overlap. */
  lemma Disjoint(w: WordMap, chunks: seq<int>, brk: int, a: int, b: int)
    requires Tiled(w, chunks, brk) && a in chunks && b in chunks && a != b
    ensures End(w, a) <= b || End(w, b) <= a
  {
    var i: nat :| i < |chunks| && chunks[i] == a;
    var j: nat :| j < |chunks| && chunks[j] == b;
    if i < j {
      InOrder(w, chunks, brk, i, j);
    } else {
      InOrder(w, chunks, brk, j, i);
    }
  }

  /** The headers of a heap, followed from its start with _chunk_sz as far as the break. */
  function WalkFrom(w: WordMap, c: int, brk: int): seq<int>
    decreases brk - c
  {
    if c >= brk || Size(w, c) < 0 then [] else [c] + WalkFrom(w, End(w, c), brk)
  }

  /** Following the headers visits every chunk once, in order, and stops at the break. */
  lemma {:induction false} WalkVisitsChunks(w: WordMap, chunks: seq<int>, brk: int, k: nat)
    requires Tiled(w, chunks, brk) && k <= |chunks|
    ensures WalkFrom(w, if k < |chunks| then chunks[k] else brk, brk) == chunks[k..]
    decreases |chunks| - k
  {
    if k < |chunks| {
      assert Fits(w, chunks, brk, k);
      Inside(w, chunks, brk, chunks[k]);
      WalkVisitsChunks(w, chunks, brk, k + 1);
      assert chunks[k..] == [chunks[k]] + chunks[k + 1..];
    }
  }

  // ----- what one turn of a bin list touches -----

  /** Taking a chunk from a bin or putting one in writes the chunk itself, one flag in the header
      at n, the back link of the neighbour e and the front link of the bin's head. */
  ghost predicate Touches(w: WordMap, w1: WordMap, i: nat, c: int, e: int, n: int) {
    && Size(w1, n) == Size(w, n) && (n != c ==> (Used(w1, n) <==> Used(w, n))) && Size(w1, c) == Size(w, c)
    && forall a :: a != e + 8 && a != Head(i) + 16 && a != n && !(c <= a < End(w, c)) ==> Get(w1, a) == Get(w, a)
  }

  /** The surroundings of such a turn in a sound heap. */
  ghost predicate Turn(w: WordMap, chunks: seq<int>, brk: int, bins: seq<seq<int>>, i: nat, c: int, e: int, n: int) {
    && Inv(w, chunks, brk, bins) && i < HEAP_NUM_BINS
    && c in chunks && c != Last(chunks) && Size(w, c) == BinSize(i)
    && (e == Head(i) || (e in bins[i] && e != c)) && n in chunks
  }

  lemma InvTiled(w: WordMap, chunks: seq<int>, brk: int, bins: seq<seq<int>>)
    requires Inv(w, chunks, brk, bins)
    ensures Tiled(w, chunks, brk) && chunks != [] && |bins| == HEAP_NUM_BINS
  {
  }

  lemma InvBinned(w: WordMap, chunks: seq<int>, brk: int, bins: seq<seq<int>>, j: nat)
    requires Inv(w, chunks, brk, bins) && j < HEAP_NUM_BINS
    ensures chunks != [] && Binned(w, chunks, j, bins[j])
  {
  }

  lemma FiledIn(w: WordMap, chunks: seq<int>, j: nat, d: int)
    requires chunks != [] && j < HEAP_NUM_BINS && Filed(w, chunks, j, d)
    ensures d in chunks && Size(w, d) == BinSize(j)
  {
  }

  lemma FirstOf(w: WordMap, head: int, list: seq<int>)
    requires Ring(w, head, list)
    ensures Next(w, head) == At(head, list, 1)
  {
    assert Linked(w, head, list, 0);
  }

  lemma ListedIsFiled(w: WordMap, chunks: seq<int>, brk: int, bins: seq<seq<int>>, i: nat, c: int)
    requires Inv(w, chunks, brk, bins) && i < HEAP_NUM_BINS && c in bins[i]
    ensures Filed(w, chunks, i, c)
  {
    assert Binned(w, chunks, i, bins[i]);
  }

  lemma HeaderKept(w: WordMap, w1: WordMap, chunks: seq<int>, brk: int, bins: seq<seq<int>>, i: nat, c: int, e: int,
                   n: int, d: int)
    requires Turn(w, chunks, brk, bins, i, c, e, n) && Touches(w, w1, i, c, e, n) && d in chunks
    ensures Size(w1, d) == Size(w, d) && (d != c ==> (Used(w1, d) <==> Used(w, d)))
  {
    hide Binned, Accounted, Roomy;
    Inside(w, chunks, brk, d);
    if e != Head(i) {
      ListedIsFiled(w, chunks, brk, bins, i, e);
      if d != e {
        Disjoint(w, chunks, brk, d, e);
      }
      Inside(w, chunks, brk, e);
    }
    if d != c {
      Disjoint(w, chunks, brk, d, c);
    }
  }

  /** The payload of every other chunk stays, the neighbour's back link apart. */
  lemma PayloadKept(w: WordMap, w1: WordMap, chunks: seq<int>, brk: int, bins: seq<seq<int>>, i: nat, c: int, e: int,
                    n: int, d: int, a: int)
    requires Turn(w, chunks, brk, bins, i, c, e, n) && Touches(w, w1, i, c, e, n)
    requires d in chunks && d != c && d < a < End(w, d) && (d == e ==> a != e + 8)
    ensures Get(w1, a) == Get(w, a)
  {
    hide Binned, Accounted, Roomy;
    Inside(w, chunks, brk, d);
    Inside(w, chunks, brk, n);
    Disjoint(w, chunks, brk, d, c);
    if d != n {
      Disjoint(w, chunks, brk, d, n);
    }
    if e != Head(i) {
      ListedIsFiled(w, chunks, brk, bins, i, e);
      Inside(w, chunks, brk, e);
      if d != e {
        Disjoint(w, chunks, brk, d, e);
      }
    }
  }

  lemma FiledKept(w: WordMap, w1: WordMap, chunks: seq<int>, brk: int, bins: seq<seq<int>>, i: nat, c: int, e: int,
                  n: int, j: nat, d: int)
    requires Turn(w, chunks, brk, bins, i, c, e, n) && Touches(w, w1, i, c, e, n)
    requires j < HEAP_NUM_BINS && Filed(w, chunks, j, d) && d != c
    ensures Filed(w1, chunks, j, d)
  {
    hide Inv, Touches, IsBinSize, BinSize;
    InvTiled(w, chunks, brk, bins);
    HeaderKept(w, w1, chunks, brk, bins, i, c, e, n, d);
    Inside(w, chunks, brk, d);
    PayloadKept(w, w1, chunks, brk, bins, i, c, e, n, d, d + Size(w, d));
  }

  ghost predicate SameLinks(w: WordMap, w1: WordMap, c: int) {
    Prev(w1, c) == Prev(w, c) && Next(w1, c) == Next(w, c)
  }

  lemma RingKept(w: WordMap, w1: WordMap, head: int, list: seq<int>)
    requires Ring(w, head, list)
    requires SameLinks(w, w1, head) && forall k :: 0 <= k < |list| ==> SameLinks(w, w1, list[k])
    ensures Ring(w1, head, list)
  {
    forall k | 0 <= k <= |list|
      ensures Linked(w1, head, list, k)
    {
      assert Linked(w, head, list, k);
    }
  }

  lemma FiledInOne(w: WordMap, chunks: seq<int>, i: nat, j: nat, c: int)
    requires chunks != [] && i < HEAP_NUM_BINS && j < HEAP_NUM_BINS && Size(w, c) == BinSize(i) == BinSize(j)
    ensures i == j
  {
    BinIndexInverts(i);
    BinIndexInverts(j);
  }

  lemma OtherBinKept(w: WordMap, w1: WordMap, chunks: seq<int>, brk: int, bins: seq<seq<int>>, i: nat, c: int, e: int,
                     n: int, j: nat)
    requires Turn(w, chunks, brk, bins, i, c, e, n) && Touches(w, w1, i, c, e, n)
    requires j < HEAP_NUM_BINS && j != i
    ensures Binned(w1, chunks, j, bins[j])
  {
    hide Inv, Touches, IsBinSize, BinSize, Filed, Ring;
    InvTiled(w, chunks, brk, bins);
    var list := bins[j];
    InvBinned(w, chunks, brk, bins, j);
    forall k | 0 <= k < |list|
      ensures Filed(w1, chunks, j, list[k]) && SameLinks(w, w1, list[k])
    {
      var d := list[k];
      FiledIn(w, chunks, j, d);
      assert d != c && d != e by {
        if d == c || d == e {
          if e == d && e != Head(i) {
            ListedIsFiled(w, chunks, brk, bins, i, e);
          }
          Inside(w, chunks, brk, d);
          FiledInOne(w, chunks, i, j, d);
        }
      }
      FiledKept(w, w1, chunks, brk, bins, i, c, e, n, j, d);
      Inside(w, chunks, brk, d);
      PayloadKept(w, w1, chunks, brk, bins, i, c, e, n, d, d + 8);
      PayloadKept(w, w1, chunks, brk, bins, i, c, e, n, d, d + 16);
    }
    OtherHeadKept(w, w1, chunks, brk, bins, i, c, e, n, j);
    RingKept(w, w1, Head(j), list);
  }

  lemma OtherHeadKept(w: WordMap, w1: WordMap, chunks: seq<int>, brk: int, bins: seq<seq<int>>, i: nat, c: int, e: int,
                      n: int, j: nat)
    requires Turn(w, chunks, brk, bins, i, c, e, n) && Touches(w, w1, i, c, e, n) && j != i
    ensures SameLinks(w, w1, Head(j))
  {
    hide Binned, Accounted, Roomy;
    Inside(w, chunks, brk, c);
    Inside(w, chunks, brk, n);
    if e != Head(i) {
      ListedIsFiled(w, chunks, brk, bins, i, e);
      Inside(w, chunks, brk, e);
    }
  }

  lemma TilesKept(w: WordMap, w1: WordMap, chunks: seq<int>, brk: int, bins: seq<seq<int>>, i: nat, c: int, e: int,
                  n: int)
    requires Turn(w, chunks, brk, bins, i, c, e, n) && Touches(w, w1, i, c, e, n)
    ensures Tiled(w1, chunks, brk) && Roomy(w1, Last(chunks))
  {
    hide Touches, Binned, Accounted;
    forall k: nat | k < |chunks|
      ensures Fits(w1, chunks, brk, k)
    {
      assert Fits(w, chunks, brk, k);
      HeaderKept(w, w1, chunks, brk, bins, i, c, e, n, chunks[k]);
    }
    HeaderKept(w, w1, chunks, brk, bins, i, c, e, n, Last(chunks));
  }

  lemma AccountKept(w: WordMap, w1: WordMap, chunks: seq<int>, brk: int, bins: seq<seq<int>>, list1: seq<int>,
                    i: nat, c: int, e: int, n: int, d: int)
    requires Turn(w, chunks, brk, bins, i, c, e, n) && Touches(w, w1, i, c, e, n)
    requires d in chunks && d != Last(chunks)
    requires d == c ==> Used(w1, c) || c in list1
    requires d in bins[i] && d != c ==> d in list1
    ensures Accounted(w1, bins[i := list1], d)
  {
    hide Touches, Binned, Tiled, Roomy, BinSize;
    HeaderKept(w, w1, chunks, brk, bins, i, c, e, n, d);
    assert Accounted(w, bins, d);
    if d == c {
      BinIndexInverts(i);
    }
  }

  /** A turn that leaves its own bin in order leaves the whole heap in order. */
  lemma TurnKeepsInv(w: WordMap, w1: WordMap, chunks: seq<int>, brk: int, bins: seq<seq<int>>, list1: seq<int>,
                     i: nat, c: int, e: int, n: int)
    requires Turn(w, chunks, brk, bins, i, c, e, n) && Touches(w, w1, i, c, e, n)
    requires Binned(w1, chunks, i, list1)
    requires Used(w1, c) || c in list1
    requires forall d :: d in bins[i] && d != c ==> d in list1
    ensures Inv(w1, chunks, brk, bins[i := list1])
  {
    hide Touches, Binned, Accounted, Roomy, Tiled;
    TilesKept(w, w1, chunks, brk, bins, i, c, e, n);
    var bins1 := bins[i := list1];
    forall j: nat | j < HEAP_NUM_BINS
      ensures Binned(w1, chunks, j, bins1[j])
    {
      if j != i {
        OtherBinKept(w, w1, chunks, brk, bins, i, c, e, n, j);
      }
    }
    forall d | d in chunks && d != Last(chunks)
      ensures Accounted(w1, bins1, d)
    {
      AccountKept(w, w1, chunks, brk, bins, list1, i, c, e, n, d);
    }
  }

  lemma DistinctNodes(w: WordMap, chunks: seq<int>, brk: int, i: nat, list: seq<int>)
    requires Tiled(w, chunks, brk)
    requires forall k :: 0 <= k < |list| ==> list[k] in chunks
    requires forall j, k :: 0 <= j < k < |list| ==> list[j] != list[k]
    ensures Distinct(Head(i), list)
  {
    hide Tiled;
    forall k | 0 <= k < |list|
      ensures Apart(Head(i), list[k]) && 24 <= Size(w, list[k])
    {
      Inside(w, chunks, brk, list[k]);
    }
    forall j, k | 0 <= j < k < |list|
      ensures Apart(list[j], list[k])
    {
      Disjoint(w, chunks, brk, list[j], list[k]);
    }
  }

  // ----- kfree -----

  /** The words kfree writes for the chunk at c and the bin with this head. */
  function Freed(rev: Revision, w: WordMap, head: int, c: int): WordMap {
    AddFront(rev, WithFooter(SetFree(w, c), c), head, c)
  }

  /** _chunk_footer(c)->memsz = _chunk_memsz(c) */
  function WithFooter(w: WordMap, c: int): WordMap {
    w[c + Size(w, c) := Size(w, c)]
  }

  /** The payload of every other block in use is what it was. */
  ghost predicate OthersKept(w: WordMap, w1: WordMap, chunks: seq<int>, c: int) {
    forall d :: d in chunks && d != c && Used(w, d) ==> SameBlock(w, w1, d)
  }

  ghost predicate SameBlock(w: WordMap, w1: WordMap, d: int) {
    Used(w1, d) && Size(w1, d) == Size(w, d) && forall a :: d < a < End(w, d) ==> Get(w1, a) == Get(w, a)
  }

  lemma TurnKeepsOthers(w: WordMap, w1: WordMap, chunks: seq<int>, brk: int, bins: seq<seq<int>>, i: nat, c: int,
                        e: int, n: int)
    requires Turn(w, chunks, brk, bins, i, c, e, n) && Touches(w, w1, i, c, e, n)
    ensures OthersKept(w, w1, chunks, c)
  {
    hide Inv, Touches;
    forall d | d in chunks && d != c && Used(w, d)
      ensures SameBlock(w, w1, d)
    {
      HeaderKept(w, w1, chunks, brk, bins, i, c, e, n, d);
      if d == e {
        InvTiled(w, chunks, brk, bins);
        Inside(w, chunks, brk, d);
        ListedIsFiled(w, chunks, brk, bins, i, e);
      }
      forall a | d < a < End(w, d)
        ensures Get(w1, a) == Get(w, a)
      {
        PayloadKept(w, w1, chunks, brk, bins, i, c, e, n, d, a);
      }
    }
  }

  lemma FreedHeader(w: WordMap, head: int, c: int, e: int)
    requires Size(w, c) >= 24 && Next(w, head) == e && head + 24 < c && (e == head || Apart(e, c))
    ensures var w1 := Freed(Documented, w, head, c);
            && Size(w1, c) == Size(w, c) && !Used(w1, c)
            && (e + 8 != c + Size(w, c) ==> Get(w1, c + Size(w, c)) == Size(w, c))
            && forall a :: a != e + 8 && a != head + 16 && !(c <= a < End(w, c)) ==> Get(w1, a) == Get(w, a)
  {
    hide Size;
    FlagsKeepSize(w, c);
    var w0 := SetFree(w, c);
    var w2 := WithFooter(w0, c);
    assert Get(w2, c) == Get(w0, c);
    var w1 := AddFront(Documented, w2, head, c);
    assert Get(w1, c) == Get(w2, c);
    SameHeader(w0, w1, c);
  }

  lemma SameHeader(w: WordMap, w1: WordMap, c: int)
    requires Get(w1, c) == Get(w, c)
    ensures Size(w1, c) == Size(w, c) && (Used(w1, c) <==> Used(w, c))
  {
  }

  lemma FreedRing(w: WordMap, chunks: seq<int>, brk: int, bins: seq<seq<int>>, i: nat, c: int)
    requires Inv(w, chunks, brk, bins) && i < HEAP_NUM_BINS && c in chunks && Used(w, c)
    ensures Ring(Freed(Documented, w, Head(i), c), Head(i), [c] + bins[i])
    ensures forall k :: 0 <= k < |bins[i]| ==> bins[i][k] != c && bins[i][k] in chunks
    ensures Next(w, Head(i)) == At(Head(i), bins[i], 1)
  {
    hide Tiled, Roomy, Accounted, Size, Linked;
    var list := bins[i];
    assert Binned(w, chunks, i, list);
    FlagsKeepSize(w, c);
    Inside(w, chunks, brk, c);
    var w2 := WithFooter(SetFree(w, c), c);
    forall k | 0 <= k < |list|
      ensures list[k] in chunks && list[k] != c && SameLinks(w, w2, list[k])
    {
      assert Filed(w, chunks, i, list[k]);
      Disjoint(w, chunks, brk, list[k], c);
      Inside(w, chunks, brk, list[k]);
    }
    RingKept(w, w2, Head(i), list);
    DistinctNodes(w, chunks, brk, i, [c] + list);
    AddFrontRing(w2, Head(i), list, c);
    FirstOf(w, Head(i), list);
  }

  /** Freeing a block hangs its chunk at the front of its own bin, and nothing else changes. */
  lemma FreeKeepsInv(w: WordMap, chunks: seq<int>, brk: int, bins: seq<seq<int>>, c: int)
    requires Inv(w, chunks, brk, bins) && c in chunks && Used(w, c)
    ensures IsBinSize(Size(w, c))
    ensures var i := GetBinIdx(Documented, Size(w, c));
            var w1 := Freed(Documented, w, Head(i), c);
            && Inv(w1, chunks, brk, bins[i := [c] + bins[i]])
            && !Used(w1, c) && Size(w1, c) == Size(w, c) && OthersKept(w, w1, chunks, c)
            && forall d :: d in chunks && d != c ==> (Used(w1, d) <==> Used(w, d))
  {
    hide Binned, Tiled, BinSize, GetBinIdx, Freed, Linked;
    assert Accounted(w, bins, c);
    var i: nat := GetBinIdx(Documented, Size(w, c));
    var w1, list := Freed(Documented, w, Head(i), c), bins[i];
    FreedRing(w, chunks, brk, bins, i, c);
    var e := At(Head(i), list, 1);
    Inside(w, chunks, brk, c);
    if e != Head(i) {
      ListedIsFiled(w, chunks, brk, bins, i, e);
      Disjoint(w, chunks, brk, e, c);
      Inside(w, chunks, brk, e);
    }
    FreedHeader(w, Head(i), c, e);
    assert Touches(w, w1, i, c, e, c);
    FreedIsBinned(w, chunks, brk, bins, i, c, e);
    TurnKeepsInv(w, w1, chunks, brk, bins, [c] + list, i, c, e, c);
    TurnKeepsOthers(w, w1, chunks, brk, bins, i, c, e, c);
    forall d | d in chunks && d != c
      ensures Used(w1, d) <==> Used(w, d)
    {
      HeaderKept(w, w1, chunks, brk, bins, i, c, e, c, d);
    }
  }

  lemma FreedIsBinned(w: WordMap, chunks: seq<int>, brk: int, bins: seq<seq<int>>, i: nat, c: int, e: int)
    requires Turn(w, chunks, brk, bins, i, c, e, c) && Used(w, c) && e == At(Head(i), bins[i], 1)
    requires Touches(w, Freed(Documented, w, Head(i), c), i, c, e, c)
    ensures Binned(Freed(Documented, w, Head(i), c), chunks, i, [c] + bins[i])
  {
    hide Tiled, Roomy, BinSize, Freed, Linked, Ring, Touches;
    var w1, list := Freed(Documented, w, Head(i), c), bins[i];
    FreedRing(w, chunks, brk, bins, i, c);
    assert Binned(w, chunks, i, list);
    Inside(w, chunks, brk, c);
    if e != Head(i) {
      ListedIsFiled(w, chunks, brk, bins, i, e);
      Disjoint(w, chunks, brk, e, c);
      Inside(w, chunks, brk, e);
    }
    FreedHeader(w, Head(i), c, e);
    assert Filed(w1, chunks, i, c);
    forall k | 0 <= k < |list|
      ensures Filed(w1, chunks, i, list[k])
    {
      assert Filed(w, chunks, i, list[k]);
      FiledKept(w, w1, chunks, brk, bins, i, c, e, c, i, list[k]);
    }
  }

  // ----- kmalloc from a bin -----

  /** The words kmalloc writes when it takes the first chunk of the bin with this head. */
  function Taken(w: WordMap, head: int): WordMap {
    var c := Next(w, head);
    Delete(Flagged(SetUsed(w, c), c, head), c)
  }

  /** The chunk behind c learns that c is used, but only when c was not alone in its list. */
  function Flagged(w: WordMap, c: int, head: int): WordMap {
    if Next(w, c) != head then SetPrevUsed(w, End(w, c)) else w
  }

  lemma TakenHeader(w: WordMap, head: int, c: int, e: int)
    requires Size(w, c) >= 24 && head + 24 < c && Next(w, head) == c && Next(w, c) == e && Prev(w, c) == head
    requires e == head || e == End(w, c) || (Apart(e, c) && Apart(e, End(w, c)))
    ensures var w1, n := Taken(w, head), End(w, c);
            && Size(w1, c) == Size(w, c) && Used(w1, c)
            && Size(w1, n) == Size(w, n) && (Used(w1, n) <==> Used(w, n))
            && forall a :: a != e + 8 && a != head + 16 && a != n && !(c <= a < n) ==> Get(w1, a) == Get(w, a)
  {
    hide Size, Used, SetUsed, SetPrevUsed;
    var n := End(w, c);
    var w2 := SetUsed(w, c);
    var w3 := Flagged(w2, c, head);
    FlagsKeepSize(w, c);
    HeaderWritesOnly(w, c);
    HeaderWritesOnly(w2, n);
    assert Next(w2, c) == e;
    assert End(w2, c) == n;
    FlagsKeepSize(w2, n);
    SameHeader(w, w2, n);
    SameHeader(w2, w3, c);
    SameHeader(w3, Taken(w, head), c);
    SameHeader(w3, Taken(w, head), n);
  }

  lemma HeaderWritesOnly(w: WordMap, c: int)
    ensures forall a :: a != c ==> Get(SetUsed(w, c), a) == Get(w, a) && Get(SetPrevUsed(w, c), a) == Get(w, a)
  {
  }

  lemma TakenRing(w: WordMap, chunks: seq<int>, brk: int, bins: seq<seq<int>>, i: nat)
    requires Inv(w, chunks, brk, bins) && i < HEAP_NUM_BINS && bins[i] != []
    ensures Next(w, Head(i)) == bins[i][0] && Prev(w, bins[i][0]) == Head(i)
    ensures Next(w, bins[i][0]) == At(Head(i), bins[i], 2)
    ensures Ring(Taken(w, Head(i)), Head(i), bins[i][1..])
  {
    hide Tiled, Roomy, Accounted, Size, Used, SetUsed, SetPrevUsed;
    InvTiled(w, chunks, brk, bins);
    var list := bins[i];
    assert Binned(w, chunks, i, list);
    assert Linked(w, Head(i), list, 0) && Linked(w, Head(i), list, 1);
    var c := list[0];
    assert Filed(w, chunks, i, c);
    Inside(w, chunks, brk, c);
    var w2 := SetUsed(w, c);
    var n := End(w, c);
    FlagsKeepSize(w, c);
    HeaderWritesOnly(w, c);
    HeaderWritesOnly(w2, n);
    Inside(w, chunks, brk, n);
    var w3 := Flagged(w2, c, Head(i));
    forall k | 0 <= k < |list|
      ensures SameLinks(w, w3, list[k]) && list[k] in chunks
    {
      var d := list[k];
      assert Filed(w, chunks, i, d);
      Inside(w, chunks, brk, d);
      if d != c {
        Disjoint(w, chunks, brk, d, c);
      }
      if d != n {
        Disjoint(w, chunks, brk, d, n);
      }
    }
    RingKept(w, w3, Head(i), list);
    DistinctNodes(w, chunks, brk, i, list);
    DeleteFrontRing(w3, Head(i), list);
  }

  /** Taking the first chunk of a bin marks it used and changes nothing else. */
  lemma TakeKeepsInv(w: WordMap, chunks: seq<int>, brk: int, bins: seq<seq<int>>, i: nat)
    requires Inv(w, chunks, brk, bins) && i < HEAP_NUM_BINS && bins[i] != []
    ensures var c := bins[i][0];
            var w1 := Taken(w, Head(i));
            && Next(w, Head(i)) == c && Filed(w, chunks, i, c)
            && Inv(w1, chunks, brk, bins[i := bins[i][1..]])
            && Used(w1, c) && Size(w1, c) == BinSize(i) && OthersKept(w, w1, chunks, c)
            && forall d :: d in chunks && d != c ==> (Used(w1, d) <==> Used(w, d))
  {
    hide Binned, Tiled, BinSize, GetBinIdx, Taken, Linked, Roomy, Accounted;
    var w1, list := Taken(w, Head(i)), bins[i];
    var c, e := list[0], At(Head(i), list, 2);
    TakenRing(w, chunks, brk, bins, i);
    ListedIsFiled(w, chunks, brk, bins, i, c);
    TakenTouches(w, chunks, brk, bins, i);
    var n := End(w, c);
    TakenIsBinned(w, chunks, brk, bins, i);
    assert forall d :: d in list && d != c ==> d in list[1..];
    TurnKeepsInv(w, w1, chunks, brk, bins, list[1..], i, c, e, n);
    TurnKeepsOthers(w, w1, chunks, brk, bins, i, c, e, n);
    forall d | d in chunks && d != c
      ensures Used(w1, d) <==> Used(w, d)
    {
      HeaderKept(w, w1, chunks, brk, bins, i, c, e, n, d);
    }
  }

  lemma TakenTouches(w: WordMap, chunks: seq<int>, brk: int, bins: seq<seq<int>>, i: nat)
    requires Inv(w, chunks, brk, bins) && i < HEAP_NUM_BINS && bins[i] != []
    ensures var c, e := bins[i][0], At(Head(i), bins[i], 2);
            && Turn(w, chunks, brk, bins, i, c, e, End(w, c))
            && Touches(w, Taken(w, Head(i)), i, c, e, End(w, c)) && Used(Taken(w, Head(i)), c)
  {
    hide Tiled, BinSize, Taken, Linked, Roomy, Accounted;
    var list := bins[i];
    var c, e := list[0], At(Head(i), list, 2);
    assert Binned(w, chunks, i, list);
    TakenRing(w, chunks, brk, bins, i);
    ListedIsFiled(w, chunks, brk, bins, i, c);
    Inside(w, chunks, brk, c);
    var n := End(w, c);
    Inside(w, chunks, brk, n);
    if e != Head(i) {
      ListedIsFiled(w, chunks, brk, bins, i, e);
      Disjoint(w, chunks, brk, e, c);
      if e != n {
        Disjoint(w, chunks, brk, e, n);
      }
      Inside(w, chunks, brk, e);
    }
    TakenHeader(w, Head(i), c, e);
  }

  lemma TakenIsBinned(w: WordMap, chunks: seq<int>, brk: int, bins: seq<seq<int>>, i: nat)
    requires Inv(w, chunks, brk, bins) && i < HEAP_NUM_BINS && bins[i] != []
    ensures Binned(Taken(w, Head(i)), chunks, i, bins[i][1..])
  {
    hide Tiled, Roomy, BinSize, Taken, Linked, Ring, Touches, Turn, Inv;
    InvTiled(w, chunks, brk, bins);
    var w1, list := Taken(w, Head(i)), bins[i];
    var c, e := list[0], At(Head(i), list, 2);
    TakenRing(w, chunks, brk, bins, i);
    TakenTouches(w, chunks, brk, bins, i);
    InvBinned(w, chunks, brk, bins, i);
    forall k | 1 <= k < |list|
      ensures Filed(w1, chunks, i, list[k])
    {
      assert Filed(w, chunks, i, list[k]);
      FiledKept(w, w1, chunks, brk, bins, i, c, e, End(w, c), i, list[k]);
    }
  }

  // ----- kmalloc from the last chunk -----

  /** _chunk_split_front; as written (line 130) the two halves are also linked, although neither
      of them is in a list. */
  function SplitFront(rev: Revision, w: WordMap, c: int, left: int): WordMap {
    var right := c + 8 + left;
    var w1 := w[right := Sub(Size(w, c), left + 8)];
    var w2 := w1[c := left + Get(w1, c) % 8];
    var w3 := w2[c + left := left];
    var w4 := WithFooter(w3, right);
    if rev == AsWritten then AddFront(rev, w4, c, right) else w4
  }

  /** The words kmalloc writes when it cuts a block from the last chunk, grown by one page first
      if need be. */
  function Cut(rev: Revision, w: WordMap, last: int, grow: bool, left: int): WordMap {
    SetUsed(SplitFront(rev, if grow then Grown(w, last) else w, last, left), last)
  }

  function Grown(w: WordMap, last: int): WordMap {
    w[last := Get(w, last) + PAGE_SIZE]
  }

  /** Line 334: the last chunk would keep less than a page. */
  predicate TooShort(w: WordMap, last: int, left: int) {
    Sub(Size(w, last), left) < PAGE_SIZE
  }

  lemma GrownHeader(w: WordMap, c: int)
    ensures Size(Grown(w, c), c) == Size(w, c) + PAGE_SIZE && (Used(Grown(w, c), c) <==> Used(w, c))
  {
    var v := Get(w, c);
    assert v + PAGE_SIZE == 8 * (v / 8 + 512) + v % 8;
    DivMod(v + PAGE_SIZE, 8, v / 8 + 512, v % 8);
    DivMod(v + PAGE_SIZE, 2, v / 2 + 2048, v % 2);
  }

  lemma SplitHeaders(w: WordMap, c: int, left: int)
    requires 24 <= left && left % 8 == 0 && left + 8 + 24 <= Size(w, c) < 0x1_0000_0000_0000_0000
    requires !Used(w, c)
    ensures var w1, right := SetUsed(SplitFront(Documented, w, c, left), c), c + 8 + left;
            && Size(w1, c) == left && Used(w1, c)
            && Size(w1, right) == Size(w, c) - left - 8 && !Used(w1, right)
            && Get(w1, right + Size(w1, right)) == Size(w1, right)
            && forall a :: a < c || a >= End(w, c) ==> Get(w1, a) == Get(w, a)
  {
    var v, right := Get(w, c), c + 8 + left;
    var rest := Size(w, c) - left - 8;
    assert Sub(Size(w, c), left + 8) == rest;
    HeaderOf(v, left);
    EvenMultiple(rest, v / 8 - left / 8 - 1);
    var w3 := w[right := rest][c := left + v % 8][c + left := left];
    assert Size(w3, right) == rest;
    var w4 := SplitFront(Documented, w, c, left);
    assert w4 == WithFooter(w3, right);
    assert Get(w4, c) == left + v % 8;
    FlagsKeepSize(w4, c);
  }

  lemma EvenMultiple(x: int, q: int)
    requires x == 8 * q
    ensures x / 8 * 8 == x && x % 2 == 0
  {
    DivMod(x, 8, q, 0);
    DivMod(x, 2, 4 * q, 0);
  }

  /** left | (old & 7) */
  lemma HeaderOf(v: int, left: int)
    requires left % 8 == 0
    ensures (left + v % 8) / 8 * 8 == left && (left + v % 8) % 2 == v % 2
  {
    LowBits(v, v / 8, v % 8);
    LowBits(left + v % 8, left / 8, v % 8);
  }

  /** Two words agree outside the last chunk. */
  ghost predicate SameBelow(w: WordMap, w1: WordMap, c: int) {
    forall a :: a < c ==> Get(w1, a) == Get(w, a)
  }

  /** A heap whose last chunk c became a used chunk of a bin's size and a new last chunk. */
  ghost predicate CutAt(w: WordMap, w1: WordMap, chunks: seq<int>, brk1: int, left: int)
    requires chunks != []
  {
    var c := Last(chunks);
    var right := c + 8 + left;
    && SameBelow(w, w1, c) && IsBinSize(left)
    && Size(w1, c) == left && Used(w1, c)
    && End(w1, right) == brk1 && Roomy(w1, right)
  }

  lemma BelowKept(w: WordMap, w1: WordMap, chunks: seq<int>, brk: int, d: int)
    requires Tiled(w, chunks, brk) && SameBelow(w, w1, Last(chunks)) && d in chunks && d != Last(chunks)
    ensures Size(w1, d) == Size(w, d) && (Used(w1, d) <==> Used(w, d)) && SameLinks(w, w1, d)
    ensures forall a :: d < a < End(w, d) ==> Get(w1, a) == Get(w, a)
  {
    hide Tiled;
    Inside(w, chunks, brk, d);
    SameHeader(w, w1, d);
  }

  lemma CutKeepsTiles(w: WordMap, w1: WordMap, chunks: seq<int>, brk: int, brk1: int, left: int)
    requires Tiled(w, chunks, brk) && CutAt(w, w1, chunks, brk1, left)
    ensures Tiled(w1, chunks + [Last(chunks) + 8 + left], brk1)
    ensures forall j, k :: 0 <= j < k < |chunks| ==> chunks[j] != chunks[k]
  {
    var chunks1 := chunks + [Last(chunks) + 8 + left];
    forall j, k | 0 <= j < k < |chunks|
      ensures chunks[j] != chunks[k]
    {
      assert Fits(w, chunks, brk, j);
      InOrder(w, chunks, brk, j, k);
    }
    forall k: nat | k < |chunks1|
      ensures Fits(w1, chunks1, brk1, k)
    {
      if k < |chunks| - 1 {
        assert Fits(w, chunks, brk, k);
        BelowKept(w, w1, chunks, brk, chunks[k]);
      }
    }
  }

  lemma CutKeepsBin(w: WordMap, w1: WordMap, chunks: seq<int>, brk: int, brk1: int, bins: seq<seq<int>>, left: int,
                    i: nat)
    requires Inv(w, chunks, brk, bins) && CutAt(w, w1, chunks, brk1, left) && i < HEAP_NUM_BINS
    ensures Binned(w1, chunks + [Last(chunks) + 8 + left], i, bins[i])
  {
    hide Tiled, Linked, BinSize, Ring, GetBinIdx, Accounted;
    InvTiled(w, chunks, brk, bins);
    var chunks1, list := chunks + [Last(chunks) + 8 + left], bins[i];
    assert Binned(w, chunks, i, list);
    forall k | 0 <= k < |list|
      ensures Filed(w1, chunks1, i, list[k]) && SameLinks(w, w1, list[k])
    {
      assert Filed(w, chunks, i, list[k]);
      BelowKept(w, w1, chunks, brk, list[k]);
      Inside(w, chunks, brk, list[k]);
    }
    Inside(w, chunks, brk, Last(chunks));
    RingKept(w, w1, Head(i), list);
  }

  /** Cutting a block from the last chunk adds exactly that block. */
  lemma CutKeepsInv(w: WordMap, w1: WordMap, chunks: seq<int>, brk: int, brk1: int, bins: seq<seq<int>>, left: int)
    requires Inv(w, chunks, brk, bins) && CutAt(w, w1, chunks, brk1, left)
    ensures Inv(w1, chunks + [Last(chunks) + 8 + left], brk1, bins)
    ensures OthersKept(w, w1, chunks, Last(chunks))
    ensures forall d :: d in chunks && d != Last(chunks) ==> (Used(w1, d) <==> Used(w, d))
  {
    hide Tiled, Binned, IsBinSize;
    InvTiled(w, chunks, brk, bins);
    var c := Last(chunks);
    var chunks1 := chunks + [c + 8 + left];
    CutKeepsTiles(w, w1, chunks, brk, brk1, left);
    forall i: nat | i < HEAP_NUM_BINS
      ensures Binned(w1, chunks1, i, bins[i])
    {
      CutKeepsBin(w, w1, chunks, brk, brk1, bins, left, i);
    }
    forall d | d in chunks && d != c
      ensures Accounted(w1, bins, d) && (Used(w1, d) <==> Used(w, d)) && (Used(w, d) ==> SameBlock(w, w1, d))
    {
      assert Accounted(w, bins, d);
      BelowKept(w, w1, chunks, brk, d);
    }
  }

  /** kmalloc's cut is such a cut, and the check on line 334 leaves room for it: no difference of
      sizes wraps around, and one page of growth is enough. */
  lemma CutFits(w: WordMap, chunks: seq<int>, brk: int, bins: seq<seq<int>>, left: int)
    requires Inv(w, chunks, brk, bins) && brk <= HEAP_SIZE && IsBinSize(left)
    ensures var c := Last(chunks);
            var grow := TooShort(w, c, left);
            CutAt(w, Cut(Documented, w, c, grow, left), chunks, if grow then brk + PAGE_SIZE else brk, left)
    ensures TooShort(w, Last(chunks), left) <==> Size(w, Last(chunks)) < left + PAGE_SIZE
  {
    hide Binned, Accounted, Tiled, GetBinIdx, BinSize, Size, Used;
    InvTiled(w, chunks, brk, bins);
    var c := Last(chunks);
    Inside(w, chunks, brk, c);
    LastEnds(w, chunks, brk);
    BinIndexInverts(GetBinIdx(Documented, left));
    var grow := TooShort(w, c, left);
    var w0 := if grow then Grown(w, c) else w;
    GrownHeader(w, c);
    SplitHeaders(w0, c, left);
  }

  lemma LastEnds(w: WordMap, chunks: seq<int>, brk: int)
    requires Tiled(w, chunks, brk)
    ensures End(w, Last(chunks)) == brk
  {
    assert Fits(w, chunks, brk, |chunks| - 1);
  }

  // ----- line 130 as it stands -----

  /** The cut of line 130 leaves the words below the last chunk alone exactly when the last chunk's
      forward link points at no lower chunk, or at one that already holds the stored value. */
  lemma CutAsWrittenExactly(w: WordMap, c: int, grow: bool, left: int)
    requires left >= 24 && left % 8 == 0 && left + 32 <= Size(w, c) < HEAP_SIZE
    ensures SameBelow(w, Cut(AsWritten, w, c, grow, left), c)
            <==> Next(w, c) + 8 >= c || Get(w, Next(w, c) + 8) == c + 8 + left
  {
    var w0 := if grow then Grown(w, c) else w;
    var w4 := SplitFront(Documented, w0, c, left);
    GrownHeader(w, c);
    SplitWritesAbove(w0, c, left);
    var right, w5 := c + 8 + left, SplitFront(AsWritten, w0, c, left);
    HeaderWritesOnly(w5, c);
    var hit := Next(w, c) + 8;
    assert forall a :: a < c && a != hit ==> Get(w5, a) == Get(w, a);
    assert hit < c ==> Get(w5, hit) == right;
  }

  lemma SplitWritesAbove(w: WordMap, c: int, left: int)
    requires left >= 24 && left % 8 == 0 && left + 32 <= Size(w, c) < 2 * HEAP_SIZE
    ensures forall a :: a < c ==> Get(SplitFront(Documented, w, c, left), a) == Get(w, a)
    ensures Next(SplitFront(Documented, w, c, left), c) == Next(w, c)
  {
    var rest := Size(w, c) - left - 8;
    assert Sub(Size(w, c), left + 8) == rest;
    EvenMultiple(rest, Get(w, c) / 8 - left / 8 - 1);
    var w3 := w[c + 8 + left := rest][c := left + Get(w[c + 8 + left := rest], c) % 8][c + left := left];
    assert Size(w3, c + 8 + left) == rest;
  }

  /** As written a cut leaves the new last chunk's forward link on the block just handed out, so
      the next cut stores into the first word of that block's payload. */
  lemma CutAsWrittenLinksBack(w: WordMap, c: int, grow: bool, left: int)
    requires left >= 24
    ensures Next(Cut(AsWritten, w, c, grow, left), c + 8 + left) == c
  {
    var w5 := SplitFront(AsWritten, if grow then Grown(w, c) else w, c, left);
    HeaderWritesOnly(w5, c);
  }

  // ----- the heap -----

  /** What kmalloc answers; a failed assertion of _get_size or ksbrk panics.  OutsideTable stands for
      a bin index behind the table, where C leaves the meaning open. */
  datatype Grant = Null | Panic | OutsideTable | Block(ptr: int)

  lemma OwnBinKept(w: WordMap, w1: WordMap, chunks: seq<int>, brk: int, bins: seq<seq<int>>, i: nat, c: int)
    requires Turn(w, chunks, brk, bins, i, c, Head(i), c) && Used(w, c) && Used(w1, c) && Size(w1, c) == Size(w, c)
    requires forall a :: !(c < a < End(w, c)) ==> Get(w1, a) == Get(w, a)
    ensures Binned(w1, chunks, i, bins[i])
  {
    hide Tiled, BinSize, Linked, Ring, Roomy, Accounted;
    var list := bins[i];
    assert Binned(w, chunks, i, list);
    Inside(w, chunks, brk, c);
    forall k | 0 <= k < |list|
      ensures Filed(w1, chunks, i, list[k]) && SameLinks(w, w1, list[k])
    {
      var d := list[k];
      assert Filed(w, chunks, i, d);
      FiledKept(w, w1, chunks, brk, bins, i, c, Head(i), c, i, d);
      Inside(w, chunks, brk, d);
      Disjoint(w, chunks, brk, d, c);
    }
    RingKept(w, w1, Head(i), list);
  }

  /** A store into a block in use is a matter of that block alone. */
  lemma StoreKeepsInv(w: WordMap, chunks: seq<int>, brk: int, bins: seq<seq<int>>, c: int, a: int, v: int)
    requires Inv(w, chunks, brk, bins) && c in chunks && Used(w, c) && c < a < End(w, c)
    ensures Inv(w[a := v], chunks, brk, bins) && OthersKept(w, w[a := v], chunks, c)
    ensures forall d :: d in chunks ==> (Used(w[a := v], d) <==> Used(w, d)) && Size(w[a := v], d) == Size(w, d)
  {
    hide Binned, Tiled, BinSize, GetBinIdx, Linked, Touches;
    assert Accounted(w, bins, c);
    var i: nat, w1 := GetBinIdx(Documented, Size(w, c)), w[a := v];
    SameHeader(w, w1, c);
    TouchesInside(w, w1, i, c);
    OwnBinKept(w, w1, chunks, brk, bins, i, c);
    TurnKeepsInv(w, w1, chunks, brk, bins, bins[i], i, c, Head(i), c);
    assert bins[i := bins[i]] == bins;
    TurnKeepsOthers(w, w1, chunks, brk, bins, i, c, Head(i), c);
    forall d | d in chunks
      ensures (Used(w1, d) <==> Used(w, d)) && Size(w1, d) == Size(w, d)
    {
      HeaderKept(w, w1, chunks, brk, bins, i, c, Head(i), c, d);
    }
  }

  lemma TouchesInside(w: WordMap, w1: WordMap, i: nat, c: int)
    requires Size(w1, c) == Size(w, c)
    requires forall a :: !(c < a < End(w, c)) ==> Get(w1, a) == Get(w, a)
    ensures Touches(w, w1, i, c, Head(i), c)
  {
  }

  lemma EmptyListed(w: WordMap, chunks: seq<int>, brk: int, bins: seq<seq<int>>, i: nat)
    requires Inv(w, chunks, brk, bins) && i < HEAP_NUM_BINS
    ensures Next(w, Head(i)) == Head(i) <==> bins[i] == []
  {
    hide Tiled, Accounted, Roomy, Linked;
    InvTiled(w, chunks, brk, bins);
    assert Binned(w, chunks, i, bins[i]);
    FirstOf(w, Head(i), bins[i]);
    if bins[i] != [] {
      assert Filed(w, chunks, i, bins[i][0]);
      Inside(w, chunks, brk, bins[i][0]);
    }
  }

  // ----- the heap as a value -----

  /** All that decides what the next call does. */
  datatype HeapState = HeapState(w: WordMap, last: int, brk: int)

  /** The bin that serves a request. */
  function BinFor(rev: Revision, size: nat): (i: nat)
    requires size <= MAX_SIZE
    ensures rev == Documented ==> i < HEAP_NUM_BINS && BinSize(i) == GetSize(size)
  {
    GetSizeIsLeast(size);
    BinIndexInverts(GetBinIdx(Documented, GetSize(size)));
    GetBinIdx(rev, GetSize(size))
  }

  /** Nothing in the bin for the request, and no page to grow by. */
  predicate Exhausted(rev: Revision, st: HeapState, size: nat)
    requires size <= MAX_SIZE && BinFor(rev, size) < HEAP_NUM_BINS
  {
    var i := BinFor(rev, size);
    Next(st.w, Head(i)) == Head(i) && TooShort(st.w, st.last, BinSize(i)) && st.brk + PAGE_SIZE > HEAP_SIZE
  }

  /** kmalloc */
  function Malloc(rev: Revision, st: HeapState, size: nat): (HeapState, Grant) {
    if size == 0 then (st, Null)
    else if size > MAX_SIZE then (st, Panic)
    else if BinFor(rev, size) >= HEAP_NUM_BINS then (st, OutsideTable)
    else if Exhausted(rev, st, size) then (st, Panic)
    else
      var head, binsz := Head(BinFor(rev, size)), BinSize(BinFor(rev, size));
      if Next(st.w, head) != head then (st.(w := Taken(st.w, head)), Block(Next(st.w, head) + 8))
      else
        var grow := TooShort(st.w, st.last, binsz);
        (HeapState(Cut(rev, st.w, st.last, grow, binsz), st.last + 8 + binsz,
                   if grow then st.brk + PAGE_SIZE else st.brk),
         Block(st.last + 8))
  }

  lemma MallocRefuses(st: HeapState, size: nat)
    requires size == 0 || size > MAX_SIZE
    ensures Malloc(Documented, st, size) == (st, if size == 0 then Null else Panic)
  {
  }

  lemma MallocIs(st: HeapState, size: nat)
    requires 0 < size <= MAX_SIZE
    ensures BinFor(Documented, size) == GetBinIdx(Documented, GetSize(size))
    ensures IsBinSize(GetSize(size)) && GetSize(size) >= size
    ensures var head, binsz := Head(BinFor(Documented, size)), GetSize(size);
            var grow := TooShort(st.w, st.last, binsz);
            && (Exhausted(Documented, st, size) <==> Next(st.w, head) == head && grow && st.brk + PAGE_SIZE > HEAP_SIZE)
            && (Exhausted(Documented, st, size) ==> Malloc(Documented, st, size) == (st, Panic))
            && (Next(st.w, head) != head ==>
                  Malloc(Documented, st, size) == (st.(w := Taken(st.w, head)), Block(Next(st.w, head) + 8)))
            && (Next(st.w, head) == head && !Exhausted(Documented, st, size) ==>
                  Malloc(Documented, st, size)
                  == (HeapState(Cut(Documented, st.w, st.last, grow, binsz), st.last + 8 + binsz,
                                if grow then st.brk + PAGE_SIZE else st.brk),
                      Block(st.last + 8)))
  {
    hide Taken, Cut, TooShort, Next, GetSize, GetBinIdx;
    GetSizeIsLeast(size);
  }

  /** kfree; in a sound heap every used chunk has a bin's size, and the index as documented is in the
      table. */
  function FreeBlock(rev: Revision, st: HeapState, ptr: int): (HeapState, bool) {
    var c := ptr - 8;
    if !(0 < ptr < st.last + 8 + Get(st.w, st.last)) || !Used(st.w, c) || !IsBinSize(Size(st.w, c))
       || !(0 <= GetBinIdx(rev, Size(st.w, c)) < HEAP_NUM_BINS)
    then (st, false)
    else (st.(w := Freed(rev, st.w, Head(GetBinIdx(rev, Size(st.w, c))), c)), true)
  }

  /** The heap that heap_init leaves, with the bins as their initialisers leave them: one free chunk of
      two pages less a header. */
  predicate Initial(st: HeapState) {
    && st.last == 0 && st.brk == 2 * PAGE_SIZE && Get(st.w, 0) == 2 * PAGE_SIZE - 8 + 2
    && Prev(st.w, 0) == 0 && Next(st.w, 0) == 0
    && forall i: nat :: i < HEAP_NUM_BINS ==> Next(st.w, Head(i)) == Head(i) && Prev(st.w, Head(i)) == Head(i)
  }

  /** It is sound. */
  lemma InitialInv(st: HeapState)
    requires Initial(st)
    ensures Inv(st.w, [0], st.brk, seq(HEAP_NUM_BINS, i => []))
    ensures Size(st.w, 0) == 2 * PAGE_SIZE - 8 && !Used(st.w, 0)
  {
    var bins: seq<seq<int>> := seq(HEAP_NUM_BINS, i => []);
    forall i: nat | i < HEAP_NUM_BINS
      ensures Binned(st.w, [0], i, bins[i])
    {
      assert Linked(st.w, Head(i), bins[i], 0);
    }
  }

  /** The global state of heap.c.  The model keeps `chunks`, the chunk addresses in order, and
      `bins`, the chunks of every bin's list in order. */
  class KernelHeap {
    var w: WordMap
    var last: int
    var brk: int
    ghost var chunks: seq<int>
    ghost var bins: seq<seq<int>>

    ghost predicate Valid()
      reads this
    {
      Inv(w, chunks, brk, bins) && last == Last(chunks) && brk <= HEAP_SIZE
    }

    /** The chunk at c is a block handed out and not yet freed. */
    ghost predicate Allocated(c: int)
      reads this
    {
      c in chunks && Used(w, c)
    }

    ghost function State(): HeapState
      reads `w, `last, `brk
    {
      HeapState(w, last, brk)
    }

    /** heap_init, over whatever the memory holds, with the bins as their initialisers leave them. */
    constructor (memory: WordMap)
      ensures Valid() && chunks == [0] && Initial(State())
      ensures forall c :: !Allocated(c)
    {
      var m := memory;
      for i := 0 to HEAP_NUM_BINS
        invariant forall k: nat :: k < i ==> Next(m, Head(k)) == Head(k) && Prev(m, Head(k)) == Head(k)
      {
        m := WithNext(WithPrev(m, Head(i), Head(i)), Head(i), Head(i));
      }
      m := m[0 := 2 * PAGE_SIZE - 8];
      m := SetFree(m, 0);
      m := SetPrevUsed(m, 0);
      m := WithNext(WithPrev(m, 0, 0), 0, 0);
      last, brk := 0, 2 * PAGE_SIZE;
      chunks := [0];
      bins := seq(HEAP_NUM_BINS, i => []);
      w := m;
      new;
      InitialInv(State());
    }

    /** kmalloc: the block is new, large enough and at its place; every other block keeps its
        contents. */
    method Kmalloc(size: nat) returns (r: Grant)
      requires Valid()
      modifies this
      ensures Valid()
      ensures (r == Null <==> size == 0) && r != OutsideTable
      ensures (State(), r) == Malloc(Documented, old(State()), size)
      ensures r == Panic <==> size > MAX_SIZE || (size > 0 && Exhausted(Documented, old(State()), size))
      ensures !r.Block? ==>
        && w == old(w) && last == old(last) && brk == old(brk) && chunks == old(chunks)
        && bins == old(bins)
      ensures r.Block? ==>
        && !old(Allocated(r.ptr - 8)) && Allocated(r.ptr - 8)
        && Size(w, r.ptr - 8) == GetSize(size) >= size
      ensures r.Block? ==> OthersKept(old(w), w, old(chunks), r.ptr - 8)
      ensures r.Block? ==> forall d :: d != r.ptr - 8 ==> (Allocated(d) <==> old(Allocated(d)))
      ensures r.Block? ==> FromBin(old(chunks), old(bins), old(brk), r.ptr - 8, GetBinIdx(Documented, GetSize(size)))
                           || FromLast(old(w), old(chunks), old(bins), old(brk), r.ptr - 8, GetSize(size))
    {
      hide Inv, OthersKept, Taken, Cut, TooShort, GetSize, GetBinIdx, Next, Malloc, Exhausted, BinFor, FromBin,
           FromLast, BinSize, IsBinSize, Allocated;
      if size == 0 || size > MAX_SIZE {
        MallocRefuses(State(), size);
        return if size == 0 then Null else Panic;
      }
      MallocIs(State(), size);
      var binsz := GetSize(size);
      var bindx := BinFor(Documented, size);
      EmptyListed(w, chunks, brk, bins, bindx);
      if Next(w, Head(bindx)) != Head(bindx) {
        r := TakeFirst(bindx);
      } else {
        r := CutLast(binsz);
      }
    }

    /** Lines 325 to 331. */
    method TakeFirst(bindx: nat) returns (r: Grant)
      requires Valid() && bindx < HEAP_NUM_BINS && bins[bindx] != []
      modifies this
      ensures Valid() && r == Block(old(bins[bindx][0]) + 8)
      ensures !old(Allocated(r.ptr - 8)) && Allocated(r.ptr - 8) && Size(w, r.ptr - 8) == BinSize(bindx)
      ensures OthersKept(old(w), w, old(chunks), r.ptr - 8)
      ensures forall d :: d != r.ptr - 8 ==> (Allocated(d) <==> old(Allocated(d)))
      ensures FromBin(old(chunks), old(bins), old(brk), r.ptr - 8, bindx)
      ensures State() == old(State()).(w := Taken(old(w), Head(bindx))) && r.ptr == Next(old(w), Head(bindx)) + 8
    {
      hide Inv, OthersKept;
      InvTiled(w, chunks, brk, bins);
      TakeKeepsInv(w, chunks, brk, bins, bindx);
      ghost var w0 := w;
      var chunk := Next(w, Head(bindx));
      w := SetUsed(w, chunk);
      if Next(w, chunk) != Head(bindx) {
        w := SetPrevUsed(w, End(w, chunk));
      }
      w := Delete(w, chunk);
      assert w == Taken(w0, Head(bindx));
      bins := bins[bindx := bins[bindx][1..]];
      return Block(chunk + 8);
    }

    /** Lines 334 to 342. */
    method CutLast(binsz: nat) returns (r: Grant)
      requires Valid() && IsBinSize(binsz)
      modifies this
      ensures Valid()
      ensures r == if old(NoRoom(binsz)) then Panic else Block(old(last) + 8)
      ensures r == Panic ==>
        && w == old(w) && last == old(last) && brk == old(brk) && chunks == old(chunks)
        && bins == old(bins)
      ensures r != Panic ==> !old(Allocated(r.ptr - 8)) && Allocated(r.ptr - 8) && Size(w, r.ptr - 8) == binsz
      ensures r != Panic ==> OthersKept(old(w), w, old(chunks), r.ptr - 8)
      ensures r != Panic ==> forall d :: d != r.ptr - 8 ==> (Allocated(d) <==> old(Allocated(d)))
      ensures r != Panic ==> FromLast(old(w), old(chunks), old(bins), old(brk), r.ptr - 8, binsz)
      ensures r != Panic ==> var grow := TooShort(old(w), old(last), binsz);
                             State() == HeapState(Cut(Documented, old(w), old(last), grow, binsz),
                                                  old(last) + 8 + binsz,
                                                  if grow then old(brk) + PAGE_SIZE else old(brk))
    {
      hide Inv, OthersKept, SplitFront;
      CutFits(w, chunks, brk, bins, binsz);
      ghost var w0, grow := w, TooShort(w, last, binsz);
      if TooShort(w, last, binsz) {
        if brk + PAGE_SIZE > HEAP_SIZE {
          return Panic;
        }
        brk := brk + PAGE_SIZE;
        w := Grown(w, last);
      }
      var chunk := last;
      w := SplitFront(Documented, w, last, binsz);
      last := last + 8 + binsz;
      w := SetUsed(w, chunk);
      assert w == Cut(Documented, w0, chunk, grow, binsz);
      CutKeepsInv(w0, w, chunks, old(brk), brk, bins, binsz);
      CutHeaders(w0, w, chunks, old(brk), bins, brk, binsz);
      chunks := chunks + [last];
      return Block(chunk + 8);
    }

    /** Growing the heap by a page would pass its end. */
    ghost predicate NoRoom(binsz: nat)
      reads this
    {
      TooShort(w, last, binsz) && brk + PAGE_SIZE > HEAP_SIZE
    }

    /** The block was the first of its bin; the heap keeps its shape. */
    ghost predicate FromBin(chunks0: seq<int>, bins0: seq<seq<int>>, brk0: int, c: int, i: int)
      reads this
    {
      && 0 <= i < |bins0| && bins0[i] != [] && c == bins0[i][0] && bins == bins0[i := bins0[i][1..]]
      && chunks == chunks0 && brk == brk0
    }

    /** The block is the front of the last chunk, which took one more page only if it had to. */
    ghost predicate FromLast(w0: WordMap, chunks0: seq<int>, bins0: seq<seq<int>>, brk0: int, c: int, binsz: int)
      reads this
    {
      && chunks0 != [] && c == Last(chunks0) && chunks == chunks0 + [c + 8 + binsz] && bins == bins0
      && brk == if Size(w0, c) < binsz + PAGE_SIZE then brk0 + PAGE_SIZE else brk0
    }

    /** kfree; false stands for its two panics. */
    method Kfree(ptr: int) returns (ok: bool)
      requires Valid()
      requires 0 < ptr < last + 8 + Get(w, last) ==> ptr - 8 in chunks
      modifies this
      ensures Valid()
      ensures (State(), ok) == FreeBlock(Documented, old(State()), ptr)
      ensures ok <==> old(Allocated(ptr - 8))
      ensures !ok ==> w == old(w) && last == old(last) && brk == old(brk) && chunks == old(chunks) && bins == old(bins)
      ensures ok ==>
        && !Allocated(ptr - 8) && OthersKept(old(w), w, chunks, ptr - 8) && last == old(last)
        && brk == old(brk) && chunks == old(chunks)
      ensures ok ==> forall d :: d != ptr - 8 ==> (Allocated(d) <==> old(Allocated(d)))
      ensures ok ==> IsBinSize(Size(old(w), ptr - 8))
      ensures ok ==> var i := GetBinIdx(Documented, Size(old(w), ptr - 8));
                     bins == old(bins)[i := [ptr - 8] + old(bins[i])]
    {
      hide Inv, OthersKept, AddFront, GetBinIdx;
      RangeCheck(w, chunks, brk, bins, ptr - 8);
      if !(ptr > 0 && ptr < last + 8 + Get(w, last)) {
        return false;
      }
      var chunk := ptr - 8;
      if !Used(w, chunk) {
        return false;
      }
      FreeKeepsInv(w, chunks, brk, bins, chunk);
      InvTiled(w, chunks, brk, bins);
      ghost var w0 := w;
      FlagsKeepSize(w, chunk);
      var bindx: nat := GetBinIdx(Documented, Size(w, chunk));
      w := SetFree(w, chunk);
      w := WithFooter(w, chunk);
      w := AddFront(Documented, w, Head(bindx), chunk);
      assert w == Freed(Documented, w0, Head(bindx), chunk);
      bins := bins[bindx := [chunk] + bins[bindx]];
      return true;
    }

    /** What the owner of a block may do with it. */
    method Store(ptr: int, a: int, v: int)
      requires Valid() && Allocated(ptr - 8) && a % 8 == 0 && ptr <= a < End(w, ptr - 8)
      modifies this`w
      ensures Valid() && w == old(w)[a := v] && OthersKept(old(w), w, chunks, ptr - 8)
      ensures forall d :: Allocated(d) <==> old(Allocated(d))
      ensures forall d :: d in chunks ==> Size(w, d) == Size(old(w), d)
    {
      hide Inv, OthersKept;
      StoreKeepsInv(w, chunks, brk, bins, ptr - 8, a, v);
      w := w[a := v];
    }
  }

  /** A block in use passes kfree's range check. */
  lemma RangeCheck(w: WordMap, chunks: seq<int>, brk: int, bins: seq<seq<int>>, c: int)
    requires Inv(w, chunks, brk, bins)
    ensures c in chunks && Used(w, c) ==> 0 < c + 8 < Last(chunks) + 8 + Get(w, Last(chunks))
  {
    hide Binned, Accounted, Tiled;
    if c in chunks && Used(w, c) {
      Inside(w, chunks, brk, c);
    }
  }

  lemma CutHeaders(w: WordMap, w1: WordMap, chunks: seq<int>, brk: int, bins: seq<seq<int>>, brk1: int, left: int)
    requires Inv(w, chunks, brk, bins) && CutAt(w, w1, chunks, brk1, left)
    ensures !Used(w, Last(chunks)) && Used(w1, Last(chunks)) && Size(w1, Last(chunks)) == left
    ensures !Used(w1, Last(chunks) + 8 + left) && Last(chunks) in chunks
  {
  }
}
