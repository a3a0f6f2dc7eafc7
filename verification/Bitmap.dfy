/** The physical frame allocator of kernel/mem/bitmap.c: bm0 has one bit per frame, bm1 one bit
    per word of bm0.  A set bit of bm1 promises nothing about the word being full; the invariant
    that makes the search of _alloc sound is the sandwich below. */
module Bitmap {
  import opened Common
  import opened Words
  import opened MemoryMap

  const FRAMES_PER_GROUP := 4096  // frames that one word of bm1 stands for

  // ----- the two levels -----

  /** Full words are marked, empty words are not, and the bits behind the last frame and behind
      the last word are set for ever. */
  ghost predicate Sandwich(b0: seq<nat>, b1: seq<nat>, tot: nat) {
    && IsBitmap(b0) && IsBitmap(b1)
    && |b0| == WordsFor(tot) && |b1| == WordsFor(|b0|)
    && (forall i :: 0 <= i < |b0| && b0[i] == WORD_MAX ==> Test(b1, i))
    && (forall i :: 0 <= i < |b0| && b0[i] == 0 ==> !Test(b1, i))
    && (forall f: nat :: tot <= f < WORD_SIZE * |b0| ==> Test(b0, f))
    && (forall i: nat :: |b0| <= i < WORD_SIZE * |b1| ==> Test(b1, i))
  }

  /** The managed frames whose bit is set. */
  ghost function UsedFrames(b0: seq<nat>, tot: nat): set<nat> {
    set f: nat | f < tot && Test(b0, f)
  }

  /** _set: bm1 after bit f of bm0 was set. */
  function Summary(b0: seq<nat>, b1: seq<nat>, f: nat): seq<nat>
    requires f / WORD_SIZE < |b0| && f / WORD_SIZE / WORD_SIZE < |b1|
  {
    if Set(b0, f)[f / WORD_SIZE] == WORD_MAX then Set(b1, f / WORD_SIZE) else b1
  }

  /** _unset: bm1 after bit f of bm0 was cleared. */
  function SummaryUnset(b0: seq<nat>, b1: seq<nat>, f: nat): seq<nat>
    requires f / WORD_SIZE < |b0| && f / WORD_SIZE / WORD_SIZE < |b1|
  {
    if Unset(b0, f)[f / WORD_SIZE] == 0 then Unset(b1, f / WORD_SIZE) else b1
  }

  /** Both bitmaps before and after _set on frame f. */
  ghost predicate SetIn(b0: seq<nat>, b1: seq<nat>, c0: seq<nat>, c1: seq<nat>, f: nat) {
    && f / WORD_SIZE < |b0| && f / WORD_SIZE / WORD_SIZE < |b1|
    && c0 == Set(b0, f) && c1 == Summary(b0, b1, f)
  }

  /** Both bitmaps before and after _unset on frame f. */
  ghost predicate UnsetIn(b0: seq<nat>, b1: seq<nat>, c0: seq<nat>, c1: seq<nat>, f: nat) {
    && f / WORD_SIZE < |b0| && f / WORD_SIZE / WORD_SIZE < |b1|
    && c0 == Unset(b0, f) && c1 == SummaryUnset(b0, b1, f)
  }

  lemma FrameHasWords(b0: seq<nat>, b1: seq<nat>, tot: nat, f: nat)
    requires |b0| == WordsFor(tot) && |b1| == WordsFor(|b0|) && f < tot
    ensures f / WORD_SIZE < |b0| && f / WORD_SIZE / WORD_SIZE < |b1|
  {
  }

  lemma SetKeepsSandwich(b0: seq<nat>, b1: seq<nat>, tot: nat, f: nat)
    requires Sandwich(b0, b1, tot) && f < tot
    ensures f / WORD_SIZE < |b0| && f / WORD_SIZE / WORD_SIZE < |b1|
    ensures Sandwich(Set(b0, f), Summary(b0, b1, f), tot)
    ensures UsedFrames(Set(b0, f), tot) == UsedFrames(b0, tot) + {f}
  {
    FrameHasWords(b0, b1, tot, f);
    SetTests(b0, f);
    SetTests(b1, f / WORD_SIZE);
    WordMeaning(Set(b0, f), f / WORD_SIZE);
    assert Test(Set(b0, f), f);
  }

  lemma UnsetKeepsSandwich(b0: seq<nat>, b1: seq<nat>, tot: nat, f: nat)
    requires Sandwich(b0, b1, tot) && f < tot
    ensures f / WORD_SIZE < |b0| && f / WORD_SIZE / WORD_SIZE < |b1|
    ensures Sandwich(Unset(b0, f), SummaryUnset(b0, b1, f), tot)
    ensures UsedFrames(Unset(b0, f), tot) == UsedFrames(b0, tot) - {f}
  {
    FrameHasWords(b0, b1, tot, f);
    SetTests(b0, f);
    SetTests(b1, f / WORD_SIZE);
    WordMeaning(Unset(b0, f), f / WORD_SIZE);
    assert !Test(Unset(b0, f), f);
  }

  /** The panic in _alloc is unreachable: behind every clear bit of bm1 there is a word of bm0,
      and it has a clear bit, which belongs to a managed frame. */
  lemma ClearBitHasFrame(b0: seq<nat>, b1: seq<nat>, tot: nat, i: nat)
    requires Sandwich(b0, b1, tot)
    requires i < WORD_SIZE * |b1| && !Test(b1, i)
    ensures i < |b0| && b0[i] != WORD_MAX
    ensures forall f: nat | f / WORD_SIZE == i && !Test(b0, f) :: f < tot
    ensures exists f: nat :: f / WORD_SIZE == i && !Test(b0, f)
  {
    WordMeaning(b0, i);
    forall f: nat | f / WORD_SIZE == i && !Test(b0, f)
      ensures f < tot
    {
      assert f < WORD_SIZE * |b0|;
    }
  }

  // ----- the search of _alloc -----

  /** The first clear bit of w at or behind j, or 64. */
  function FirstClear(w: nat, j: nat): (r: nat)
    requires j <= WORD_SIZE
    ensures j <= r <= WORD_SIZE
    ensures r < WORD_SIZE ==> !Bit(w, r)
    ensures forall k: nat :: j <= k < r ==> Bit(w, k)
    decreases WORD_SIZE - j
  {
    if j == WORD_SIZE || !Bit(w, j) then j else FirstClear(w, j + 1)
  }

  /** The first word of b1 in [i, hi) that is not full, or hi. */
  function FirstGroup(b1: seq<nat>, i: nat, hi: nat): (r: nat)
    requires i <= hi <= |b1|
    ensures i <= r <= hi
    ensures r < hi ==> b1[r] != WORD_MAX
    ensures forall k :: i <= k < r ==> b1[k] == WORD_MAX
    decreases hi - i
  {
    if i == hi || b1[i] != WORD_MAX then i else FirstGroup(b1, i + 1, hi)
  }

  /** The bit numbers that the search passes through on its way to a frame. */
  datatype Pick = Pick(group: nat, j1: nat, j0: nat) {
    function Word(): nat {
      WORD_SIZE * group + j1
    }

    function Frame(): nat {
      WORD_SIZE * Word() + j0
    }
  }

  /** The word of bm0 that the first clear bit of word i of bm1 stands for, and its first clear
      bit. */
  function PickIn(b0: seq<nat>, b1: seq<nat>, i: nat): Pick
    requires i < |b1|
  {
    var j1 := FirstClear(b1[i], 0);
    var w := WORD_SIZE * i + j1;
    Pick(i, j1, if w < |b0| then FirstClear(b0[w], 0) else WORD_SIZE)
  }

  /** None when every word of bm1 in the window is full. */
  function Search(b0: seq<nat>, b1: seq<nat>, lo: nat, hi: nat): Option<Pick> {
    var top := Min(hi, |b1|);
    if lo >= top then None
    else
      var i := FirstGroup(b1, lo, top);
      if i == top then None else Some(PickIn(b0, b1, i))
  }

  lemma NotFullHasClear(s: seq<nat>, i: nat)
    requires IsBitmap(s) && i < |s| && s[i] != WORD_MAX
    ensures FirstClear(s[i], 0) < WORD_SIZE
    ensures !Test(s, WORD_SIZE * i + FirstClear(s[i], 0))
  {
    WordMeaning(s, i);
    var k: nat :| k / WORD_SIZE == i && !Test(s, k);
    var j := FirstClear(s[i], 0);
    assert j <= k % WORD_SIZE;
    assert (WORD_SIZE * i + j) / WORD_SIZE == i && (WORD_SIZE * i + j) % WORD_SIZE == j;
  }

  ghost predicate IsFreeFrame(p: Pick, b0: seq<nat>, tot: nat) {
    p.j1 < WORD_SIZE && p.j0 < WORD_SIZE && p.Word() < |b0| && p.Frame() < tot && !Test(b0, p.Frame())
  }

  /** A word of bm1 that is not full leads to a free managed frame. */
  lemma GroupHasFrame(b0: seq<nat>, b1: seq<nat>, tot: nat, i: nat)
    requires Sandwich(b0, b1, tot) && i < |b1| && b1[i] != WORD_MAX
    ensures IsFreeFrame(PickIn(b0, b1, i), b0, tot)
  {
    NotFullHasClear(b1, i);
    var w := WORD_SIZE * i + FirstClear(b1[i], 0);
    ClearBitHasFrame(b0, b1, tot, w);
    NotFullHasClear(b0, w);
    assert (WORD_SIZE * w + FirstClear(b0[w], 0)) / WORD_SIZE == w;
  }

  /** The search finds a free managed frame of the window whenever it gets past bm1. */
  lemma SearchFinds(b0: seq<nat>, b1: seq<nat>, tot: nat, lo: nat, hi: nat)
    requires Sandwich(b0, b1, tot) && Search(b0, b1, lo, hi).Some?
    ensures Search(b0, b1, lo, hi).value.group < |b1|
    ensures IsFreeFrame(Search(b0, b1, lo, hi).value, b0, tot)
    ensures FRAMES_PER_GROUP * lo <= Search(b0, b1, lo, hi).value.Frame() < FRAMES_PER_GROUP * hi
  {
    var i := FirstGroup(b1, lo, Min(hi, |b1|));
    GroupHasFrame(b0, b1, tot, i);
    GroupRange(PickIn(b0, b1, i), lo, hi);
  }

  lemma GroupRange(p: Pick, lo: nat, hi: nat)
    requires lo <= p.group < hi && p.j1 < WORD_SIZE && p.j0 < WORD_SIZE
    ensures FRAMES_PER_GROUP * lo <= p.Frame() < FRAMES_PER_GROUP * hi
  {
    assert p.Frame() == 4096 * p.group + 64 * p.j1 + p.j0;
  }

  /** When it does not, no word of the window is entirely free. */
  lemma SearchFails(b0: seq<nat>, b1: seq<nat>, tot: nat, lo: nat, hi: nat)
    requires Sandwich(b0, b1, tot) && Search(b0, b1, lo, hi).None?
    ensures forall w :: WORD_SIZE * lo <= w < WORD_SIZE * hi && w < |b0| ==> b0[w] != 0
  {
    forall w | WORD_SIZE * lo <= w < WORD_SIZE * hi && w < |b0|
      ensures b0[w] != 0
    {
      WordMeaning(b1, w / WORD_SIZE);
      assert Test(b1, w);
    }
  }

  // ----- the window of the fast allocator -----

  /** bm1_startw and bm1_endw: the limits are rounded inwards twice. */
  function WindowLo(fastStart: nat): nat {
    WordsFor(WordsFor(fastStart / PAGE_SIZE))
  }

  function WindowHi(fastEnd: nat): nat {
    fastEnd / PAGE_SIZE / WORD_SIZE / WORD_SIZE
  }

  predicate InWindow(f: nat, fastStart: nat, fastEnd: nat) {
    fastStart / PAGE_SIZE <= f && (f + 1) * PAGE_SIZE <= fastEnd
  }

  lemma RoundedInwards(f: nat, fastStart: nat, fastEnd: nat)
    requires FRAMES_PER_GROUP * WindowLo(fastStart) <= f < FRAMES_PER_GROUP * WindowHi(fastEnd)
    ensures InWindow(f, fastStart, fastEnd)
  {
  }

  /** Rounding twice leaves out nothing either: a group of 4096 frames is searched exactly when all of it lies
      between the two limits. */
  lemma SearchedGroupsExactly(g: nat, fastStart: nat, fastEnd: nat)
    ensures WindowLo(fastStart) <= g < WindowHi(fastEnd)
       <==> fastStart / PAGE_SIZE <= 4096 * g && 4096 * (g + 1) <= fastEnd / PAGE_SIZE
  {
    var a, b := fastStart / PAGE_SIZE, fastEnd / PAGE_SIZE;
    assert WordsFor(a) <= 64 * g <==> a <= 4096 * g;
    assert WordsFor(WordsFor(a)) <= g <==> WordsFor(a) <= 64 * g;
    assert g + 1 <= b / 64 / 64 <==> 64 * (g + 1) <= b / 64;
  }

  /** All frames of group g lie between the limits. */
  predicate GroupInside(g: nat, fastStart: nat, fastEnd: nat) {
    fastStart / PAGE_SIZE <= 4096 * g && 4096 * (g + 1) <= fastEnd / PAGE_SIZE
  }

  lemma SearchedIsInside(fastStart: nat, fastEnd: nat)
    ensures forall g: nat :: GroupInside(g, fastStart, fastEnd) <==> WindowLo(fastStart) <= g < WindowHi(fastEnd)
  {
    hide WindowLo, WindowHi;
    forall g: nat
      ensures GroupInside(g, fastStart, fastEnd) <==> WindowLo(fastStart) <= g < WindowHi(fastEnd)
    {
      SearchedGroupsExactly(g, fastStart, fastEnd);
    }
  }

  /** A frame of the window passes the range checks of _free when the window begins on a page;
      otherwise the frame that holds fast_start itself does not. */
  lemma WindowPassesFreeChecks(f: nat, fastStart: nat, fastEnd: nat)
    requires InWindow(f, fastStart, fastEnd)
    ensures f * PAGE_SIZE < fastEnd
    ensures f * PAGE_SIZE >= fastStart <==> fastStart % PAGE_SIZE == 0 || f > fastStart / PAGE_SIZE
  {
  }

  /** The code as it stands tests bits with an int shift, which C defines up to bit 30. */
  predicate ShiftsDefined(p: Pick) {
    p.j1 <= 30 && p.j0 <= 30
  }

  datatype AllocResult = Frame(addr: nat) | Invalid | UndefinedShift

  /** What _alloc answers, from the two bitmaps, the counters and the limits. */
  function AllocOutcome(rev: Revision, b0: seq<nat>, b1: seq<nat>, base: nat, tot: nat, used: nat, fastStart: nat,
                        fastEnd: nat): AllocResult
  {
    if used == tot then Invalid
    else
      match Found(b0, b1, fastStart, fastEnd)
      case None => Invalid
      case Some(p) =>
        if rev == AsWritten && !ShiftsDefined(p) then UndefinedShift else Frame(FrameAddr(base, p.Frame()))
  }

  /** Word i is the first of bm1 that stands for frames between the limits and is not full. */
  ghost predicate FirstOpen(b1: seq<nat>, fastStart: nat, fastEnd: nat, i: nat) {
    && i < |b1| && GroupInside(i, fastStart, fastEnd) && b1[i] != WORD_MAX
    && forall k: nat :: k < i && GroupInside(k, fastStart, fastEnd) ==> b1[k] == WORD_MAX
  }

  /** Bit j is the lowest clear bit of w. */
  ghost predicate LowestClear(w: nat, j: nat) {
    !Bit(w, j) && forall k: nat :: k < j ==> Bit(w, k)
  }

  /** The way of the search through both levels: word i of bm1, its bit j1, and bit j0 of the word
      of bm0 that this bit stands for. */
  ghost predicate Way(b0: seq<nat>, b1: seq<nat>, fastStart: nat, fastEnd: nat, i: nat, j1: nat, j0: nat) {
    && FirstOpen(b1, fastStart, fastEnd, i) && LowestClear(b1[i], j1)
    && WORD_SIZE * i + j1 < |b0| && LowestClear(b0[WORD_SIZE * i + j1], j0)
  }

  /** What the search finds, in the window of _alloc. */
  function Found(b0: seq<nat>, b1: seq<nat>, fastStart: nat, fastEnd: nat): Option<Pick> {
    Search(b0, b1, WindowLo(fastStart), WindowHi(fastEnd))
  }

  lemma SearchTakesWay(b0: seq<nat>, b1: seq<nat>, tot: nat, fastStart: nat, fastEnd: nat)
    requires Sandwich(b0, b1, tot)
    ensures Found(b0, b1, fastStart, fastEnd).None?
       <==> forall i: nat :: i < |b1| && GroupInside(i, fastStart, fastEnd) ==> b1[i] == WORD_MAX
    ensures Found(b0, b1, fastStart, fastEnd).Some? ==>
              var p := Found(b0, b1, fastStart, fastEnd).value; Way(b0, b1, fastStart, fastEnd, p.group, p.j1, p.j0)
    ensures forall i: nat, j1: nat, j0: nat :: Way(b0, b1, fastStart, fastEnd, i, j1, j0) ==>
        Found(b0, b1, fastStart, fastEnd) == Some(Pick(i, j1, j0))
  {
    hide Sandwich, Test, GroupInside, WindowLo, WindowHi;
    SearchedIsInside(fastStart, fastEnd);
    var lo, hi := WindowLo(fastStart), WindowHi(fastEnd);
    var top := Min(hi, |b1|);
    if lo < top {
      var g := FirstGroup(b1, lo, top);
      if g < top {
        GroupHasFrame(b0, b1, tot, g);
        var p := PickIn(b0, b1, g);
        forall i: nat, j1: nat, j0: nat | Way(b0, b1, fastStart, fastEnd, i, j1, j0)
          ensures p == Pick(i, j1, j0)
        {
          assert i == g;
          LowestIsFirst(b1[i], j1, p.j1);
          LowestIsFirst(b0[WORD_SIZE * i + j1], j0, p.j0);
        }
      }
    }
  }

  lemma LowestIsFirst(w: nat, j: nat, k: nat)
    requires LowestClear(w, j) && k == FirstClear(w, 0) && k < WORD_SIZE
    ensures j == k
  {
  }

  /** With the int shift _alloc answers as intended exactly when it does not search, or every
      summary word of the window is full, or the lowest clear bit of the first one that is not, and
      the lowest clear bit of the word it stands for, are both among the bits 0 to 30. */
  lemma AsWrittenAllocExactly(b0: seq<nat>, b1: seq<nat>, base: nat, tot: nat, used: nat, fastStart: nat, fastEnd: nat)
    requires Sandwich(b0, b1, tot)
    ensures AllocOutcome(AsWritten, b0, b1, base, tot, used, fastStart, fastEnd)
         == AllocOutcome(Documented, b0, b1, base, tot, used, fastStart, fastEnd)
       <==> || used == tot
            || (forall i: nat :: i < |b1| && GroupInside(i, fastStart, fastEnd) ==> b1[i] == WORD_MAX)
            || exists i: nat, j1: nat, j0: nat :: Way(b0, b1, fastStart, fastEnd, i, j1, j0) && j1 <= 30 && j0 <= 30
  {
    hide Sandwich, Search, Way, Found, GroupInside;
    SearchTakesWay(b0, b1, tot, fastStart, fastEnd);
    var s := Found(b0, b1, fastStart, fastEnd);
    if s.Some? {
      assert Way(b0, b1, fastStart, fastEnd, s.value.group, s.value.j1, s.value.j0);
    }
  }

  /** In the groups of 4096 frames that lie between the limits, no word is entirely free. */
  ghost predicate NoEmptyWord(b0: seq<nat>, fastStart: nat, fastEnd: nat) {
    forall w: nat :: w < |b0| && GroupInside(w / WORD_SIZE, fastStart, fastEnd) ==> b0[w] != 0
  }

  /** A refusal is meant to say that no word between the limits is entirely free.  It does so exactly
      unless the counter compared on line 117 says "full" while there is such a word. */
  lemma RefusalMeansNoEmptyWordExactly(rev: Revision, b0: seq<nat>, b1: seq<nat>, base: nat, tot: nat, used: nat,
                                       fastStart: nat, fastEnd: nat)
    requires Sandwich(b0, b1, tot)
    ensures (AllocOutcome(rev, b0, b1, base, tot, used, fastStart, fastEnd) == Invalid ==>
        NoEmptyWord(b0, fastStart, fastEnd))
       <==> (used == tot ==> NoEmptyWord(b0, fastStart, fastEnd))
  {
    hide Sandwich, Search, WindowLo, WindowHi, GroupInside;
    if Found(b0, b1, fastStart, fastEnd).None? {
      SearchFails(b0, b1, tot, WindowLo(fastStart), WindowHi(fastEnd));
      SearchedIsInside(fastStart, fastEnd);
    }
  }

  /** When all frames are used, no word of bm0 is entirely free. */
  lemma AllUsedNoEmptyWord(b0: seq<nat>, b1: seq<nat>, tot: nat, fastStart: nat, fastEnd: nat)
    requires Sandwich(b0, b1, tot) && forall f: nat :: f < tot ==> f in UsedFrames(b0, tot)
    ensures NoEmptyWord(b0, fastStart, fastEnd)
  {
    forall w: nat | w < |b0|
      ensures b0[w] != 0
    {
      WordMeaning(b0, w);
      assert WORD_SIZE * w in UsedFrames(b0, tot);
      assert WORD_SIZE * w / WORD_SIZE == w;
    }
  }

  /** _free looks up addr >> 12 where _alloc returned (frame << 12) + base. */
  lemma FreeFindsAllocatedFrameExactly(base: nat, f: nat)
    requires base % PAGE_SIZE == 0
    ensures FrameAddr(base, f) / PAGE_SIZE == f <==> base == 0
  {
    assert FrameAddr(base, f) == (base / PAGE_SIZE + f) * PAGE_SIZE;
  }

  // ----- which frames are free after _init -----

  /** Region i covers the addresses from its start up to the start of region i-1; region 0 only
      marks the end of memory. */
  ghost predicate Available(regions: seq<Region>, n: nat, addr: nat) {
    exists i :: IsAvailableIn(regions, i, addr) && i < n
  }

  predicate IsAvailableIn(regions: seq<Region>, i: int, addr: nat) {
    1 <= i < |regions| && regions[i].typ == REGION_TYPE_AVAIL && regions[i].start <= addr < regions[i - 1].start
  }

  /** Bytes in region i. */
  function SizeOf(regions: seq<Region>, i: int): int
    requires 1 <= i < |regions|
  {
    regions[i - 1].start - regions[i].start
  }

  ghost predicate IsRegionList(regions: seq<Region>) {
    && |regions| > 1
    && (forall i :: 0 <= i < |regions| ==> regions[i].start % PAGE_SIZE == 0)
    && (forall i, j :: 0 <= i < j < |regions| ==> regions[i].start >= regions[j].start)
  }

  /** On a memory map this is lookup in the map. */
  lemma {:induction false} AvailableIsLookup(regions: seq<Region>, addr: nat)
    requires Ordered(regions) && addr < regions[0].start
    ensures Available(regions, |regions|, addr) <==> TypeAt(regions, addr) == REGION_TYPE_AVAIL
  {
    var k := First(regions, addr);
    OrderedIsTerminated(regions, regions[0].start);
    TypeAtFirst(regions, addr);
    HeadStarts(regions, regions[0].start, |regions|);
    if Available(regions, |regions|, addr) {
      var i :| IsAvailableIn(regions, i, addr);
      HeadStarts(regions, regions[0].start, i);
      assert k == i;
    }
    if TypeAt(regions, addr) == REGION_TYPE_AVAIL {
      assert IsAvailableIn(regions, k, addr);
    }
  }

  /** The physical address of the first byte of frame f. */
  function FrameAddr(base: nat, f: nat): nat {
    base + f * PAGE_SIZE
  }

  function FrameOf(base: nat, addr: nat): nat {
    if addr >= base then (addr - base) / PAGE_SIZE else 0
  }

  lemma FrameOfAddr(base: nat, f: nat)
    ensures FrameOf(base, FrameAddr(base, f)) == f
  {
  }

  /** bm_sz: bytes taken by both bitmaps, in whole pages. */
  function BitmapBytes(tot: nat): nat {
    AlignUp(8 * WordsFor(tot) + 8 * WordsFor(WordsFor(tot)))
  }

  /** Between page boundaries there is room for the bitmaps exactly when there is room for their pages. */
  lemma RoomForBytes(size: int, bytes: nat)
    requires size % PAGE_SIZE == 0
    ensures size >= AlignUp(bytes) <==> size >= bytes
  {
  }

  /** From a page boundary on, the same frames begin inside the bytes and inside their pages. */
  lemma SameFrames(base: nat, mapAddr: nat, bytes: nat, f: nat)
    requires base % PAGE_SIZE == 0 && mapAddr % PAGE_SIZE == 0
    ensures mapAddr <= FrameAddr(base, f) < mapAddr + AlignUp(bytes)
       <==> mapAddr <= FrameAddr(base, f) < mapAddr + bytes
  {
  }

  /** The bytes themselves decide which region is chosen and which frames are in use. */
  lemma BytesDecide(regions: seq<Region>, base: nat, tot: nat, mapAddr: nat, bytes: nat)
    requires IsRegionList(regions) && base % PAGE_SIZE == 0
    ensures 1 < |regions|
    ensures forall i :: 1 <= i < |regions| ==> (SizeOf(regions, i) >= AlignUp(bytes) <==> SizeOf(regions, i) >= bytes)
    ensures mapAddr % PAGE_SIZE == 0 ==>
              InitiallyUsed(regions, base, tot, mapAddr, AlignUp(bytes))
              == InitiallyUsed(regions, base, tot, mapAddr, bytes)
  {
    hide AlignUp, Available;
    forall i | 1 <= i < |regions|
      ensures SizeOf(regions, i) >= AlignUp(bytes) <==> SizeOf(regions, i) >= bytes
    {
      RoomForBytes(SizeOf(regions, i), bytes);
    }
    if mapAddr % PAGE_SIZE == 0 {
      forall f: nat
        ensures mapAddr <= FrameAddr(base, f) < mapAddr + AlignUp(bytes)
           <==> mapAddr <= FrameAddr(base, f) < mapAddr + bytes
      {
        SameFrames(base, mapAddr, bytes, f);
      }
    }
  }

  lemma ListStarts(regions: seq<Region>, k: int)
    requires IsRegionList(regions)
    ensures 1 < |regions|
    ensures 0 <= k < |regions| ==> regions[k].start % PAGE_SIZE == 0
  {
  }

  /** One of the bytes from mapAddr on lies in frame f. */
  predicate Overlaps(f: nat, base: nat, mapAddr: nat, bytes: nat) {
    base + f * PAGE_SIZE < mapAddr + bytes && mapAddr < base + (f + 1) * PAGE_SIZE
  }

  /** A frame of memory that holds a byte of the bitmaps is in use. */
  lemma OverlapUsed(regions: seq<Region>, base: nat, tot: nat, mapAddr: nat, bytes: nat, f: nat)
    requires base % PAGE_SIZE == 0 && mapAddr % PAGE_SIZE == 0 && base <= mapAddr
    requires mapAddr + bytes <= base + tot * PAGE_SIZE && Overlaps(f, base, mapAddr, bytes)
    ensures f in InitiallyUsed(regions, base, tot, mapAddr, bytes)
  {
    var m := (mapAddr - base) / PAGE_SIZE;
    assert mapAddr == base + m * PAGE_SIZE;
  }

  // ----- the allocator object -----

  class FrameAllocator {
    var base: nat
    var totBlk: nat
    var usedBlk: nat
    var fastStart: nat
    var fastEnd: nat
    var bm0: array<nat>
    var bm1: array<nat>

    /** Where the bitmaps lie (bm0.map as a physical address) and how many bytes they take. */
    var mapAddr: nat

    /** Frames that were in use after init, and frames handed out since and not returned. */
    ghost var reserved: set<nat>
    ghost var outstanding: set<nat>

    ghost predicate Levels()
      reads `totBlk, `bm0, `bm1, bm0, bm1
    {
      bm0 != bm1 && Sandwich(bm0[..], bm1[..], totBlk)
    }

    ghost function Used(): set<nat>
      reads `totBlk, `bm0, bm0
    {
      UsedFrames(bm0[..], totBlk)
    }

    ghost predicate Valid()
      reads this, bm0, bm1
    {
      && Levels()
      && Used() == reserved + outstanding && reserved !! outstanding
      && |reserved| <= usedBlk <= totBlk
      && forall f :: f in outstanding ==> InWindow(f, fastStart, fastEnd) && f < totBlk
    }

    /** used_blk counts the frames used since _init: true as long as only frames that were handed
        out are freed. */
    ghost predicate CounterFresh()
      reads `usedBlk, `reserved
    {
      usedBlk == |reserved|
    }

    constructor ()
      ensures fresh(bm0) && fresh(bm1) && Valid() && CounterFresh()
      ensures totBlk == 0 && outstanding == {}
    {
      base, totBlk, usedBlk, fastStart, fastEnd, mapAddr := 0, 0, 0, 0, 0, 0;
      bm0, bm1 := new nat[0], new nat[0];
      reserved, outstanding := {}, {};
      new;
      assert bm0[..] == [] && bm1[..] == [];
    }

    method SetFrame(bit: nat)
      requires Levels() && bit < totBlk
      modifies bm0, bm1
      ensures Levels() && Used() == old(Used()) + {bit}
      ensures SetIn(old(bm0[..]), old(bm1[..]), bm0[..], bm1[..], bit)
    {
      SetKeepsSandwich(bm0[..], bm1[..], totBlk, bit);
      var w := bit / WORD_SIZE;
      ghost var s0, s1 := bm0[..], bm1[..];
      bm0[w] := WithBit(bm0[w], bit % WORD_SIZE);
      assert bm0[..] == Set(s0, bit);
      if bm0[w] == WORD_MAX {
        bm1[w / WORD_SIZE] := WithBit(bm1[w / WORD_SIZE], w % WORD_SIZE);
      }
      assert bm1[..] == Summary(s0, s1, bit);
    }

    method UnsetFrame(bit: nat)
      requires Levels() && bit < totBlk
      modifies bm0, bm1
      ensures Levels() && Used() == old(Used()) - {bit}
      ensures UnsetIn(old(bm0[..]), old(bm1[..]), bm0[..], bm1[..], bit)
    {
      UnsetKeepsSandwich(bm0[..], bm1[..], totBlk, bit);
      var w := bit / WORD_SIZE;
      ghost var s0, s1 := bm0[..], bm1[..];
      bm0[w] := WithoutBit(bm0[w], bit % WORD_SIZE);
      assert bm0[..] == Unset(s0, bit);
      if bm0[w] == 0 {
        bm1[w / WORD_SIZE] := WithoutBit(bm1[w / WORD_SIZE], w % WORD_SIZE);
      }
      assert bm1[..] == SummaryUnset(s0, s1, bit);
    }

    /** BM_TEST(bm0, bit) */
    method TestFrame(bit: nat) returns (b: bool)
      requires Levels() && bit < totBlk
      ensures b <==> bit in Used()
    {
      FrameHasWords(bm0[..], bm1[..], totBlk, bit);
      b := Bit(bm0[bit / WORD_SIZE], bit % WORD_SIZE);
      assert b <==> Test(bm0[..], bit);
    }

    ghost predicate Counted()
      reads `totBlk, `usedBlk, `bm0, `bm1, bm0, bm1
    {
      Levels() && usedBlk == |Used()|
    }

    /** The bodies of the loops of _mark_used and _mark_free. */
    method CountedSet(bit: nat)
      requires Counted() && bit < totBlk
      modifies this`usedBlk, bm0, bm1
      ensures Counted() && Used() == old(Used()) + {bit}
    {
      var b := TestFrame(bit);
      if !b {
        SetFrame(bit);
        usedBlk := usedBlk + 1;
      }
    }

    method CountedUnset(bit: nat)
      requires Counted() && bit < totBlk
      modifies this`usedBlk, bm0, bm1
      ensures Counted() && Used() == old(Used()) - {bit}
    {
      var b := TestFrame(bit);
      if b {
        UnsetFrame(bit);
        usedBlk := usedBlk - 1;
      }
    }

    /** _mark_used */
    method MarkUsed(start: nat, end: nat)
      requires Counted()
      requires base <= start && base <= end && (end - base) / PAGE_SIZE <= totBlk
      modifies this`usedBlk, bm0, bm1
      ensures Counted()
      ensures Used() == old(Used()) + Span((start - base) / PAGE_SIZE, (end - base) / PAGE_SIZE)
    {
      MarkUsedFrames((start - base) / PAGE_SIZE, (end - base) / PAGE_SIZE);
    }

    method MarkUsedFrames(first: nat, n: nat)
      requires Counted() && n <= totBlk
      modifies this`usedBlk, bm0, bm1
      ensures Counted() && forall f :: f in Used() <==> f in old(Used()) || first <= f < n
    {
      hide *;
      ghost var u := Used();
      var i := first;
      while i < n
        invariant first <= i && (i <= n || i == first)
        invariant Counted() && forall f :: f in Used() <==> f in u || first <= f < i
      {
        CountedSet(i);
        i := i + 1;
      }
    }

    /** _mark_free */
    method MarkFree(start: nat, end: nat)
      requires Counted()
      requires base <= start && base <= end && (end - base) / PAGE_SIZE <= totBlk
      modifies this`usedBlk, bm0, bm1
      ensures Counted()
      ensures Used() == old(Used()) - Span((start - base) / PAGE_SIZE, (end - base) / PAGE_SIZE)
    {
      MarkFreeFrames((start - base) / PAGE_SIZE, (end - base) / PAGE_SIZE);
    }

    method MarkFreeFrames(first: nat, n: nat)
      requires Counted() && n <= totBlk
      modifies this`usedBlk, bm0, bm1
      ensures Counted() && forall f :: f in Used() <==> f in old(Used()) && !(first <= f < n)
    {
      hide *;
      ghost var u := Used();
      var i := first;
      while i < n
        invariant first <= i && (i <= n || i == first)
        invariant Counted() && forall f :: f in Used() <==> f in u && !(first <= f < i)
      {
        CountedUnset(i);
        i := i + 1;
      }
    }

    /** The loop of _init that frees the AVAIL regions. */
    method MarkAvailable(regions: seq<Region>)
      requires Managing(regions) && Used() == Span(0, totBlk)
      modifies this`usedBlk, bm0, bm1
      ensures Managing(regions) && Used() == BusyFrames(regions, |regions|, base, totBlk)
    {
      hide BusyFrames, Span, Levels, Used, Counted;
      BusyAtFirst(regions, base, totBlk);
      var i := 1;
      while i < |regions|
        invariant 1 <= i <= |regions|
        invariant Managing(regions) && Used() == BusyFrames(regions, i, base, totBlk)
      {
        MarkRegion(regions, i);
        i := i + 1;
      }
    }

    ghost predicate Managing(regions: seq<Region>)
      reads `base, `totBlk, `usedBlk, `bm0, `bm1, bm0, bm1
    {
      && Counted() && IsRegionList(regions)
      && base == regions[|regions| - 1].start && totBlk == (regions[0].start - base) / PAGE_SIZE
    }

    method MarkRegion(regions: seq<Region>, i: nat)
      requires Managing(regions) && 1 <= i < |regions|
      requires Used() == BusyFrames(regions, i, base, totBlk)
      modifies this`usedBlk, bm0, bm1
      ensures Managing(regions) && Used() == BusyFrames(regions, i + 1, base, totBlk)
    {
      hide BusyFrames, Span, IsRegionList, Levels, Used;
      BusyStep(regions, i, base, totBlk);
      if regions[i].typ == REGION_TYPE_AVAIL {
        MarkFree(regions[i].start, regions[i - 1].start);
      }
    }

    /** _init: regions[0] marks the end of memory and the last region its beginning.  Fails
        (the PANIC at line 94) when no region can hold the bitmaps. */
    method Init(regions: seq<Region>, fastStart: nat, fastEnd: nat) returns (ok: bool)
      requires IsRegionList(regions)
      modifies this
      ensures fresh(bm0) && fresh(bm1)
      ensures Managing(regions) && this.fastStart == fastStart && this.fastEnd == fastEnd
      ensures ok ==> Valid() && CounterFresh() && outstanding == {}
      ensures totBlk <= 64 * bm0.Length < totBlk + 64 && bm0.Length <= 64 * bm1.Length < bm0.Length + 64
      ensures ok <==> exists i :: 1 <= i < |regions| && SizeOf(regions, i) >= 8 * (bm0.Length + bm1.Length)
      ensures ok ==> exists k :: Chosen(regions, k, 8 * (bm0.Length + bm1.Length)) && mapAddr == regions[k].start
      ensures ok ==> Used() == InitiallyUsed(regions, base, totBlk, mapAddr, 8 * (bm0.Length + bm1.Length))
      ensures ok ==> base <= mapAddr
      ensures ok ==> forall f: nat :: Overlaps(f, base, mapAddr, 8 * (bm0.Length + bm1.Length)) ==> f in Used()
    {
      hide Sandwich, Used, BusyFrames, Span, Levels, BitmapBytes, Available, InitiallyUsed, Counted,
           IsRegionList, SizeOf, AlignUp, Overlaps;
      Reset(regions, fastStart, fastEnd);
      ghost var bytes := 8 * (bm0.Length + bm1.Length);
      PagesHoldBytes();
      ListStarts(regions, |regions| - 1);
      BytesDecide(regions, base, totBlk, 0, bytes);
      var k := FindRegion(regions, BitmapBytes(totBlk));
      if k == 0 {
        return false;
      }
      mapAddr := regions[k].start;
      assert Chosen(regions, k, bytes);
      MarkAll(regions, k);
      reserved := Used();
      InitValid();
      AllBytesUsed(regions, k, bytes);
      return true;
    }

    /** bm_sz is the least number of whole pages that the two arrays take. */
    lemma PagesHoldBytes()
      requires Counted()
      ensures BitmapBytes(totBlk) == AlignUp(8 * (bm0.Length + bm1.Length))
      ensures totBlk <= 64 * bm0.Length < totBlk + 64 && bm0.Length <= 64 * bm1.Length < bm0.Length + 64
    {
    }

    lemma AllBytesUsed(regions: seq<Region>, k: nat, bytes: nat)
      requires IsRegionList(regions) && 1 <= k < |regions| && SizeOf(regions, k) >= bytes
      requires base == regions[|regions| - 1].start && totBlk == (regions[0].start - base) / PAGE_SIZE
      requires mapAddr == regions[k].start && Used() == InitiallyUsed(regions, base, totBlk, mapAddr, bytes)
      ensures base <= mapAddr
      ensures forall f: nat :: Overlaps(f, base, mapAddr, bytes) ==> f in Used()
    {
      hide Used, InitiallyUsed, Available;
      assert regions[|regions| - 1].start <= regions[k].start && regions[k - 1].start <= regions[0].start;
      forall f: nat | Overlaps(f, base, mapAddr, bytes)
        ensures f in Used()
      {
        OverlapUsed(regions, base, totBlk, mapAddr, bytes, f);
      }
    }

    /** Lines 105-111. */
    method MarkAll(regions: seq<Region>, k: nat)
      requires Managing(regions) && Used() == Span(0, totBlk)
      requires 1 <= k < |regions| && SizeOf(regions, k) >= BitmapBytes(totBlk) && mapAddr == regions[k].start
      modifies this`usedBlk, bm0, bm1
      ensures Managing(regions)
      ensures Used() == InitiallyUsed(regions, base, totBlk, mapAddr, 8 * (bm0.Length + bm1.Length))
    {
      hide Sandwich, Used, BusyFrames, Span, Levels, BitmapBytes, Available, InitiallyUsed, Counted, IsRegionList,
           AlignUp;
      ListStarts(regions, k);
      ListStarts(regions, |regions| - 1);
      PagesHoldBytes();
      BytesDecide(regions, base, totBlk, mapAddr, 8 * (bm0.Length + bm1.Length));
      MarkAvailable(regions);
      InMemory(regions, k, totBlk);
      MarkUsed(mapAddr, mapAddr + BitmapBytes(totBlk));
      FreeAfterInit(regions, base, totBlk, mapAddr, BitmapBytes(totBlk));
    }

    lemma InitValid()
      requires Counted() && reserved == Used() && outstanding == {}
      ensures Valid() && CounterFresh()
    {
      hide Sandwich;
      SpanSize(totBlk);
      assert Used() <= Span(0, totBlk);
      SubsetSize(Used(), Span(0, totBlk));
    }

    /** Lines 71-82 and the memset of line 103: no frame is free yet. */
    method Reset(regions: seq<Region>, fastStart: nat, fastEnd: nat)
      requires IsRegionList(regions)
      modifies this
      ensures fresh(bm0) && fresh(bm1)
      ensures Managing(regions) && Used() == Span(0, totBlk)
      ensures this.fastStart == fastStart && this.fastEnd == fastEnd && outstanding == {}
    {
      hide Sandwich, Levels, Used, Span;
      base := regions[|regions| - 1].start;
      totBlk := (regions[0].start - base) / PAGE_SIZE;
      usedBlk := totBlk;
      this.fastStart, this.fastEnd := fastStart, fastEnd;
      outstanding := {};
      AllocateFull();
    }

    /** Both bitmaps, filled with ones. */
    method AllocateFull()
      modifies `bm0, `bm1
      ensures fresh(bm0) && fresh(bm1)
      ensures Levels() && Used() == Span(0, totBlk) && |Used()| == totBlk
    {
      hide Sandwich, UsedFrames;
      bm0 := new nat[WordsFor(totBlk)](_ => WORD_MAX);
      bm1 := new nat[WordsFor(bm0.Length)](_ => WORD_MAX);
      AllSet(bm0[..], bm1[..], totBlk);
    }

    // ----- _alloc and _free -----

    /** Lines 130-134. */
    method FindGroup(lo: nat, hi: nat) returns (i: nat)
      requires lo <= hi <= bm1.Length
      ensures i == FirstGroup(bm1[..], lo, hi)
    {
      i := lo;
      while i < hi && bm1[i] == WORD_MAX
        invariant lo <= i <= hi && FirstGroup(bm1[..], lo, hi) == FirstGroup(bm1[..], i, hi)
      {
        i := i + 1;
      }
    }

    /** Lines 117-145 of _alloc: the frame to hand out. */
    method FindFrame(rev: Revision) returns (r: AllocResult, f: nat)
      requires Levels()
      ensures r == AllocOutcome(rev, bm0[..], bm1[..], base, totBlk, usedBlk, fastStart, fastEnd)
      ensures r.Frame? ==> r.addr == FrameAddr(base, f) && f < totBlk && f !in Used() && InWindow(f, fastStart, fastEnd)
    {
      f := 0;
      if usedBlk == totBlk {
        return Invalid, f;
      }
      var lo, hi := WindowLo(fastStart), Min(WindowHi(fastEnd), bm1.Length);
      if lo >= hi {
        return Invalid, f;
      }
      var i := FindGroup(lo, hi);
      if i == hi {
        return Invalid, f;
      }
      SearchFinds(bm0[..], bm1[..], totBlk, WindowLo(fastStart), WindowHi(fastEnd));
      hide Sandwich, FirstGroup, FirstClear, PickIn;
      var defined;
      defined, f := PickFrame(rev, i);
      if !defined {
        return UndefinedShift, f;
      }
      RoundedInwards(f, fastStart, fastEnd);
      return Frame(FrameAddr(base, f)), f;
    }

    /** Lines 135-145: from word i of bm1 to a frame, when the shifts on the way are defined. */
    method PickFrame(rev: Revision, i: nat) returns (defined: bool, f: nat)
      requires Levels() && i < bm1.Length && bm1[i] != WORD_MAX
      ensures var p := PickIn(bm0[..], bm1[..], i);
              (defined <==> rev == Documented || ShiftsDefined(p)) && (defined ==> f == p.Frame())
    {
      hide Sandwich, FirstClear, Test, Bit;
      GroupHasFrame(bm0[..], bm1[..], totBlk, i);
      f := 0;
      var j1 := ScanWord(bm1[i]);
      if rev == AsWritten && j1 > 30 {
        return false, f;
      }
      var w := WORD_SIZE * i + j1;
      var j0 := ScanWord(bm0[w]);
      if rev == AsWritten && j0 > 30 {
        return false, f;
      }
      return true, WORD_SIZE * w + j0;
    }

    /** _alloc */
    method Alloc(rev: Revision) returns (r: AllocResult)
      requires Valid()
      modifies `outstanding, bm0, bm1
      ensures Valid()
      ensures r == old(AllocOutcome(rev, bm0[..], bm1[..], base, totBlk, usedBlk, fastStart, fastEnd))
      ensures r.Frame? ==> base <= r.addr && r.addr == FrameAddr(base, FrameOf(base, r.addr))
      ensures r.Frame? ==> HandedOut(FrameOf(base, r.addr), old(Used()), old(outstanding))
      ensures r.Frame? ==> SetIn(old(bm0[..]), old(bm1[..]), bm0[..], bm1[..], FrameOf(base, r.addr))
      ensures !r.Frame? ==> outstanding == old(outstanding) && bm0[..] == old(bm0[..]) && bm1[..] == old(bm1[..])
      ensures r == Invalid && (usedBlk < totBlk || CounterFresh()) ==> NoEmptyWord(bm0[..], fastStart, fastEnd)
    {
      hide Sandwich, Levels, Used, AllocOutcome, SetIn, NoEmptyWord;
      RefusalIsJustified(rev);
      var f;
      r, f := FindFrame(rev);
      if r.Frame? {
        Take(f);
        FrameOfAddr(base, f);
      }
    }

    /** With a counter that is not stale, a refusal means what it is meant to. */
    lemma RefusalIsJustified(rev: Revision)
      requires Valid()
      ensures AllocOutcome(rev, bm0[..], bm1[..], base, totBlk, usedBlk, fastStart, fastEnd) == Invalid
              && (usedBlk < totBlk || CounterFresh())
              ==> NoEmptyWord(bm0[..], fastStart, fastEnd)
    {
      hide Sandwich, NoEmptyWord, AllocOutcome;
      RefusalMeansNoEmptyWordExactly(rev, bm0[..], bm1[..], base, totBlk, usedBlk, fastStart, fastEnd);
      if usedBlk == totBlk && CounterFresh() {
        assert Used() <= Span(0, totBlk);
        SpanSize(totBlk);
        SameSize(reserved, Span(0, totBlk));
        AllUsedNoEmptyWord(bm0[..], bm1[..], totBlk, fastStart, fastEnd);
      }
    }

    /** Frame f was free and is now used and outstanding. */
    ghost predicate HandedOut(f: nat, used: set<nat>, out: set<nat>)
      reads this, bm0
    {
      && InWindow(f, fastStart, fastEnd) && f < totBlk
      && f !in used && f !in out && Used() == used + {f}
      && outstanding == out + {f}
    }

    /** Lines 145-147. */
    method Take(f: nat)
      requires Valid() && f < totBlk && f !in Used() && InWindow(f, fastStart, fastEnd)
      modifies `outstanding, bm0, bm1
      ensures Valid() && Used() == old(Used()) + {f} && outstanding == old(outstanding) + {f}
      ensures SetIn(old(bm0[..]), old(bm1[..]), bm0[..], bm1[..], f)
    {
      hide Levels, Used, Sandwich, SetIn;
      SetFrame(f);
      outstanding := outstanding + {f};
    }

    /** _free, or the panic of one of its assertions.  The source reads the bitmap without
        comparing the frame number with tot_blk, so callers pass frames of managed memory. */
    method Free(addr: nat) returns (ok: bool)
      requires Valid() && addr / PAGE_SIZE < totBlk
      modifies `outstanding, `reserved, bm0, bm1
      ensures Valid()
      ensures ok <==> PageAligned(addr) && fastStart <= addr < fastEnd && addr / PAGE_SIZE in old(Used())
      ensures ok ==> Used() == old(Used()) - {addr / PAGE_SIZE}
      ensures ok ==> outstanding == old(outstanding) - {addr / PAGE_SIZE}
      ensures reserved == if ok then old(reserved) - {addr / PAGE_SIZE} else old(reserved)
      ensures addr / PAGE_SIZE in old(outstanding) ==> reserved == old(reserved)
      ensures old(CounterFresh()) && addr / PAGE_SIZE in old(outstanding) ==> CounterFresh()
      ensures ok ==> UnsetIn(old(bm0[..]), old(bm1[..]), bm0[..], bm1[..], addr / PAGE_SIZE)
      ensures !ok ==> outstanding == old(outstanding) && bm0[..] == old(bm0[..]) && bm1[..] == old(bm1[..])
    {
      hide Levels, Used, Sandwich, Valid, UnsetIn;
      if !PageAligned(addr) || addr < fastStart || addr >= fastEnd {
        return false;
      }
      ok := TestValid(addr / PAGE_SIZE);
      if ok {
        Release(addr / PAGE_SIZE);
      }
    }

    method TestValid(f: nat) returns (b: bool)
      requires Valid() && f < totBlk
      ensures b <==> f in Used()
    {
      hide Levels, Used, Sandwich;
      b := TestFrame(f);
    }

    method Release(f: nat)
      requires Valid() && f < totBlk && f in Used()
      modifies `outstanding, `reserved, bm0, bm1
      ensures Valid() && Used() == old(Used()) - {f} && outstanding == old(outstanding) - {f}
      ensures reserved == old(reserved) - {f} && (f in old(outstanding) ==> reserved == old(reserved))
      ensures UnsetIn(old(bm0[..]), old(bm1[..]), bm0[..], bm1[..], f)
    {
      hide Levels, Used, Sandwich, InWindow, UnsetIn, UsedFrames, Test, Bit, SummaryUnset, Unset;
      FreeSets(Used(), reserved, outstanding, f);
      UnsetFrame(f);
      outstanding, reserved := outstanding - {f}, reserved - {f};
    }

    lemma UsedIs()
      ensures Used() == UsedFrames(bm0[..], totBlk)
    {
    }

    // ----- every run of allocations and frees -----

    /** Replays a run; `log` becomes the answers, one for every step. */
    method Run(rev: Revision, ops: seq<Op>) returns (log: seq<AllocResult>)
      requires Valid() && base == 0
      requires forall op | op in ops && op.DoFree? :: op.addr / PAGE_SIZE < totBlk
      modifies `outstanding, `reserved, bm0, bm1
      ensures Valid() && |log| == |ops|
      ensures NoDoubleAllocation(old(outstanding), ops, log)
      ensures outstanding == Held(old(outstanding), ops, log)
      ensures Replay(rev, Limits(totBlk, usedBlk, fastStart, fastEnd), old(Maps(bm0[..], bm1[..])), ops)
              == (Maps(bm0[..], bm1[..]), log)
      ensures usedBlk < totBlk || (old(CounterFresh()) && FreesHeld(old(outstanding), ops, log)) ==>
        RefusalsJustified(rev, Limits(totBlk, usedBlk, fastStart, fastEnd), old(Maps(bm0[..], bm1[..])), ops, log)
    {
      hide Levels, Used, Sandwich, Valid, SetIn, UnsetIn, AllocOutcome, NoDoubleAllocation, Held, Answer, Changed,
           NoEmptyWord, CounterFresh, Replay;
      ghost var fresh0 := CounterFresh();
      log := [];
      ghost var start, limits, m0 := outstanding, Limits(totBlk, usedBlk, fastStart, fastEnd), Maps(bm0[..], bm1[..]);
      RunStart(start);
      ReplayStart(rev, limits, m0);
      var i := 0;
      while i < |ops|
        invariant 0 <= i <= |ops| && |log| == i
        invariant Valid()
        invariant NoDoubleAllocation(start, ops[..i], log) && outstanding == Held(start, ops[..i], log)
        invariant Replay(rev, limits, m0, ops[..i]) == (Maps(bm0[..], bm1[..]), log)
        invariant fresh0 && FreesHeld(start, ops[..i], log) ==> CounterFresh()
        invariant usedBlk < totBlk || (fresh0 && FreesHeld(start, ops[..i], log)) ==>
          RefusalsJustified(rev, limits, m0, ops[..i], log)
      {
        var r := Invalid;
        ghost var m, used := Maps(bm0[..], bm1[..]), Used();
        UsedIs();
        match ops[i] {
          case DoAlloc =>
            r := Alloc(rev);
          case DoFree(addr) =>
            var ok := Free(addr);
            r := if ok then Frame(addr) else Invalid;
        }
        StepIs(rev, limits, m, ops[i], r, Maps(bm0[..], bm1[..]), used);
        RunStep(start, ops[..i], log, ops[i], r);
        ReplayStep(rev, limits, m0, ops[..i], ops[i], m, log, r);
        FreesHeldStep(start, ops[..i], log, ops[i], r);
        if usedBlk < totBlk || (fresh0 && FreesHeld(start, ops[..i] + [ops[i]], log + [r])) {
          JustifiedStep(rev, limits, m0, ops[..i], log, ops[i], r, m);
        }
        assert ops[..i + 1] == ops[..i] + [ops[i]] && ops[..i + 1][..i] == ops[..i];
        log := log + [r];
        i := i + 1;
      }
      assert ops[..|ops|] == ops;
    }
  }

  datatype Op = DoAlloc | DoFree(addr: nat)

  /** The two levels of bitmaps, and what does not change during a run. */
  datatype Maps = Maps(b0: seq<nat>, b1: seq<nat>)

  datatype Limits = Limits(tot: nat, used: nat, fastStart: nat, fastEnd: nat)

  /** What one operation answers, for base 0. */
  ghost function Answer(rev: Revision, l: Limits, m: Maps, op: Op): AllocResult {
    match op
    case DoAlloc => AllocOutcome(rev, m.b0, m.b1, 0, l.tot, l.used, l.fastStart, l.fastEnd)
    case DoFree(addr) =>
      if PageAligned(addr) && l.fastStart <= addr < l.fastEnd && addr / PAGE_SIZE in UsedFrames(m.b0, l.tot)
      then Frame(addr) else Invalid
  }

  /** The bitmaps after an operation with this answer. */
  ghost function Changed(m: Maps, op: Op, r: AllocResult): Maps {
    match r
    case Frame(addr) =>
      var f := addr / PAGE_SIZE;
      if f / WORD_SIZE >= |m.b0| || f / WORD_SIZE / WORD_SIZE >= |m.b1| then m
      else if op.DoAlloc? then Maps(Set(m.b0, f), Summary(m.b0, m.b1, f))
      else Maps(Unset(m.b0, f), SummaryUnset(m.b0, m.b1, f))
    case _ => m
  }

  /** The bitmaps and the answers after a whole run. */
  ghost function Replay(rev: Revision, l: Limits, m: Maps, ops: seq<Op>): (Maps, seq<AllocResult>) {
    if ops == [] then (m, [])
    else
      var (before, log) := Replay(rev, l, m, ops[..|ops| - 1]);
      var r := Answer(rev, l, before, ops[|ops| - 1]);
      (Changed(before, ops[|ops| - 1], r), log + [r])
  }

  lemma StepIs(rev: Revision, l: Limits, m: Maps, op: Op, r: AllocResult, m1: Maps, used: set<nat>)
    requires used == UsedFrames(m.b0, l.tot)
    requires op.DoAlloc? ==> r == AllocOutcome(rev, m.b0, m.b1, 0, l.tot, l.used, l.fastStart, l.fastEnd)
    requires op.DoFree? ==>
      r == if PageAligned(op.addr) && l.fastStart <= op.addr < l.fastEnd
          && op.addr / PAGE_SIZE in used then Frame(op.addr) else Invalid
    requires r.Frame? && op.DoAlloc? ==> SetIn(m.b0, m.b1, m1.b0, m1.b1, r.addr / PAGE_SIZE)
    requires r.Frame? && op.DoFree? ==> UnsetIn(m.b0, m.b1, m1.b0, m1.b1, r.addr / PAGE_SIZE)
    requires !r.Frame? ==> m1 == m
    ensures r == Answer(rev, l, m, op) && m1 == Changed(m, op, r)
  {
    hide AllocOutcome, UsedFrames;
  }

  lemma ReplayStart(rev: Revision, l: Limits, m: Maps)
    ensures Replay(rev, l, m, []) == (m, [])
  {
  }

  lemma ReplayStep(rev: Revision, l: Limits, m0: Maps, ops: seq<Op>, op: Op, m: Maps, log: seq<AllocResult>,
                   r: AllocResult)
    requires Replay(rev, l, m0, ops) == (m, log) && r == Answer(rev, l, m, op)
    ensures Replay(rev, l, m0, ops + [op]) == (Changed(m, op, r), log + [r])
  {
    hide Answer, Changed;
    assert (ops + [op])[..|ops|] == ops;
  }

  /** The run frees only frames that are held at the time. */
  ghost predicate FreesHeld(start: set<nat>, ops: seq<Op>, log: seq<AllocResult>)
    requires |ops| == |log|
  {
    forall k :: 0 <= k < |ops| && ops[k].DoFree? ==> ops[k].addr / PAGE_SIZE in Held(start, ops[..k], log[..k])
  }

  lemma FreesHeldStep(start: set<nat>, ops: seq<Op>, log: seq<AllocResult>, op: Op, r: AllocResult)
    requires |ops| == |log|
    ensures FreesHeld(start, ops + [op], log + [r])
       <==> FreesHeld(start, ops, log) && (op.DoFree? ==> op.addr / PAGE_SIZE in Held(start, ops, log))
  {
    hide Held;
    var ops1, log1 := ops + [op], log + [r];
    assert ops1[..|ops|] == ops && log1[..|ops|] == log;
    forall k | 0 <= k < |ops|
      ensures ops1[..k] == ops[..k] && log1[..k] == log[..k] && ops1[k] == ops[k]
    {
    }
    if FreesHeld(start, ops1, log1) {
      forall k | 0 <= k < |ops| && ops[k].DoFree?
        ensures ops[k].addr / PAGE_SIZE in Held(start, ops[..k], log[..k])
      {
        assert ops1[k].DoFree?;
      }
    }
  }

  /** Every allocation refused in the run was refused at a point where no word of the window was
      entirely free. */
  ghost predicate RefusalsJustified(rev: Revision, l: Limits, m0: Maps, ops: seq<Op>, log: seq<AllocResult>)
    requires |ops| == |log|
  {
    forall k :: 0 <= k < |ops| && ops[k].DoAlloc? && log[k] == Invalid ==>
      NoEmptyWord(Replay(rev, l, m0, ops[..k]).0.b0, l.fastStart, l.fastEnd)
  }

  lemma JustifiedStep(rev: Revision, l: Limits, m0: Maps, ops: seq<Op>, log: seq<AllocResult>, op: Op, r: AllocResult,
                      m: Maps)
    requires |ops| == |log| && Replay(rev, l, m0, ops).0 == m && RefusalsJustified(rev, l, m0, ops, log)
    requires op.DoAlloc? && r == Invalid ==> NoEmptyWord(m.b0, l.fastStart, l.fastEnd)
    ensures RefusalsJustified(rev, l, m0, ops + [op], log + [r])
  {
    hide Replay, NoEmptyWord;
    var ops1, log1 := ops + [op], log + [r];
    forall k | 0 <= k < |ops1| && ops1[k].DoAlloc? && log1[k] == Invalid
      ensures NoEmptyWord(Replay(rev, l, m0, ops1[..k]).0.b0, l.fastStart, l.fastEnd)
    {
      assert ops1[..k] == if k < |ops| then ops[..k] else ops;
      assert k < |ops| ==> ops[k] == ops1[k] && log[k] == log1[k];
    }
  }

  lemma RunStart(start: set<nat>)
    ensures NoDoubleAllocation(start, [], []) && Held(start, [], []) == start
  {
  }

  /** The frames a client holds after a run: handed out and not given back. */
  ghost function Held(start: set<nat>, ops: seq<Op>, log: seq<AllocResult>): set<nat>
    requires |ops| == |log|
  {
    if ops == [] then start
    else
      var last := |ops| - 1;
      var before := Held(start, ops[..last], log[..last]);
      match log[last]
      case Frame(addr) => if ops[last].DoAlloc? then before + {addr / PAGE_SIZE} else before - {addr / PAGE_SIZE}
      case _ => before
  }

  /** No frame is handed out while somebody holds it. */
  ghost predicate NoDoubleAllocation(start: set<nat>, ops: seq<Op>, log: seq<AllocResult>)
    requires |ops| == |log|
  {
    ops == []
    || var last := |ops| - 1;
       && NoDoubleAllocation(start, ops[..last], log[..last])
       && (ops[last].DoAlloc? && log[last].Frame? ==>
           log[last].addr / PAGE_SIZE !in Held(start, ops[..last], log[..last]))
  }

  lemma RunStep(start: set<nat>, ops: seq<Op>, log: seq<AllocResult>, op: Op, r: AllocResult)
    requires |ops| == |log|
    ensures var before := Held(start, ops, log);
            && Held(start, ops + [op], log + [r])
               == (if !r.Frame? then before
                   else if op.DoAlloc? then before + {r.addr / PAGE_SIZE} else before - {r.addr / PAGE_SIZE})
            && (NoDoubleAllocation(start, ops + [op], log + [r])
                <==> NoDoubleAllocation(start, ops, log)
                     && (op.DoAlloc? && r.Frame? ==> r.addr / PAGE_SIZE !in before))
  {
    assert (ops + [op])[..|ops|] == ops && (log + [r])[..|log|] == log;
  }

  lemma FreeSets(used: set<nat>, reserved: set<nat>, outstanding: set<nat>, f: nat)
    requires used == reserved + outstanding && reserved !! outstanding
    ensures used - {f} == (reserved - {f}) + (outstanding - {f}) && reserved - {f} !! outstanding - {f}
    ensures |reserved - {f}| <= |reserved|
  {
    SubsetSize(reserved - {f}, reserved);
  }

  /** Lines 135-139 and 142-144: the first bit of the word that is clear. */
  method ScanWord(w: nat) returns (j: nat)
    ensures j == FirstClear(w, 0)
  {
    j := 0;
    while j < WORD_SIZE && Bit(w, j)
      invariant j <= WORD_SIZE && FirstClear(w, 0) == FirstClear(w, j)
    {
      j := j + 1;
    }
  }

  /** Lines 85-92: the last region that is large enough, or 0. */
  method FindRegion(regions: seq<Region>, bytes: nat) returns (k: nat)
    requires IsRegionList(regions)
    ensures k < |regions|
    ensures k > 0 ==> Chosen(regions, k, bytes)
    ensures forall j :: k < j < |regions| ==> SizeOf(regions, j) < bytes
  {
    k := |regions| - 1;
    while k > 0 && SizeOf(regions, k) < bytes
      invariant k < |regions|
      invariant forall j :: k < j < |regions| ==> SizeOf(regions, j) < bytes
    {
      k := k - 1;
    }
  }

  /** Managed frames outside the first n regions' available memory. */
  ghost function BusyFrames(regions: seq<Region>, n: nat, base: nat, tot: nat): set<nat> {
    set f: nat | f < tot && !Available(regions, n, FrameAddr(base, f))
  }

  lemma BusyAtFirst(regions: seq<Region>, base: nat, tot: nat)
    ensures BusyFrames(regions, 1, base, tot) == Span(0, tot)
  {
  }

  lemma BusyStep(regions: seq<Region>, i: nat, base: nat, tot: nat)
    requires IsRegionList(regions) && 1 <= i < |regions|
    requires base == regions[|regions| - 1].start
    requires tot == (regions[0].start - base) / PAGE_SIZE
    ensures var a, b := (regions[i].start - base) / PAGE_SIZE, (regions[i - 1].start - base) / PAGE_SIZE;
            && base <= regions[i].start && base <= regions[i - 1].start && b <= tot
            && BusyFrames(regions, i + 1, base, tot)
            == if regions[i].typ == REGION_TYPE_AVAIL then BusyFrames(regions, i, base, tot) - Span(a, b)
               else BusyFrames(regions, i, base, tot)
  {
    forall f: nat
      ensures f in Span((regions[i].start - base) / PAGE_SIZE, (regions[i - 1].start - base) / PAGE_SIZE)
         <==> regions[i].start <= FrameAddr(base, f) < regions[i - 1].start
      ensures Available(regions, i + 1, FrameAddr(base, f))
         <==> Available(regions, i, FrameAddr(base, f)) || IsAvailableIn(regions, i, FrameAddr(base, f))
    {
      AlignedSpan(base, regions[i].start, regions[i - 1].start, f);
    }
  }

  /** The bitmaps lie within the managed frames. */
  lemma InMemory(regions: seq<Region>, k: nat, tot: nat)
    requires IsRegionList(regions) && 1 <= k < |regions|
    requires tot == (regions[0].start - regions[|regions| - 1].start) / PAGE_SIZE
    requires SizeOf(regions, k) >= BitmapBytes(tot)
    ensures regions[|regions| - 1].start <= regions[k].start
    ensures (regions[k].start + BitmapBytes(tot) - regions[|regions| - 1].start) / PAGE_SIZE <= tot
    ensures regions[k].start % PAGE_SIZE == 0 && regions[|regions| - 1].start % PAGE_SIZE == 0
    ensures BitmapBytes(tot) % PAGE_SIZE == 0
  {
    assert regions[0].start >= regions[k - 1].start;
    PagesBelow(regions[k].start + BitmapBytes(tot) - regions[|regions| - 1].start,
        regions[0].start - regions[|regions| - 1].start);
  }

  lemma PagesBelow(a: nat, b: nat)
    requires a <= b
    ensures a / PAGE_SIZE <= b / PAGE_SIZE
  {
  }

  /** The managed frames that are not free after _init: those outside the AVAIL regions and
      those of the pages that hold the bitmaps. */
  ghost function InitiallyUsed(regions: seq<Region>, base: nat, tot: nat, mapAddr: nat, bytes: nat): set<nat> {
    set f: nat | f < tot && (!Available(regions, |regions|, FrameAddr(base, f))
        || mapAddr <= FrameAddr(base, f) < mapAddr + bytes)
  }

  lemma FreeAfterInit(regions: seq<Region>, base: nat, tot: nat, mapAddr: nat, bytes: nat)
    requires base % PAGE_SIZE == 0 && mapAddr % PAGE_SIZE == 0 && bytes % PAGE_SIZE == 0 && base <= mapAddr
    requires (mapAddr + bytes - base) / PAGE_SIZE <= tot
    ensures BusyFrames(regions, |regions|, base, tot)
            + Span((mapAddr - base) / PAGE_SIZE, (mapAddr + bytes - base) / PAGE_SIZE)
         == InitiallyUsed(regions, base, tot, mapAddr, bytes)
  {
    forall f: nat
      ensures f in Span((mapAddr - base) / PAGE_SIZE, (mapAddr + bytes - base) / PAGE_SIZE)
         <==> mapAddr <= FrameAddr(base, f) < mapAddr + bytes
    {
      AlignedSpan(base, mapAddr, mapAddr + bytes, f);
    }
  }

  lemma {:induction false} SubsetSize(a: set<nat>, b: set<nat>)
    requires a <= b
    ensures |a| <= |b|
  {
    if a != {} {
      var x :| x in a;
      SubsetSize(a - {x}, b - {x});
    }
  }

  /** Between page boundaries, frames and the addresses of their first bytes agree. */
  lemma AlignedSpan(base: nat, a: nat, b: nat, f: nat)
    requires base % PAGE_SIZE == 0 && a % PAGE_SIZE == 0 && b % PAGE_SIZE == 0
    requires base <= a && base <= b
    ensures f in Span((a - base) / PAGE_SIZE, (b - base) / PAGE_SIZE) <==> a <= FrameAddr(base, f) < b
  {
  }

  /** memset of both bitmaps to 0xff: every frame counts as used. */
  lemma AllSet(b0: seq<nat>, b1: seq<nat>, tot: nat)
    requires |b0| == WordsFor(tot) && |b1| == WordsFor(|b0|)
    requires forall i :: 0 <= i < |b0| ==> b0[i] == WORD_MAX
    requires forall i :: 0 <= i < |b1| ==> b1[i] == WORD_MAX
    ensures Sandwich(b0, b1, tot)
    ensures UsedFrames(b0, tot) == Span(0, tot) && |UsedFrames(b0, tot)| == tot
  {
    forall f: nat | f < WORD_SIZE * |b0|
      ensures Test(b0, f)
    {
      WordMeaning(b0, f / WORD_SIZE);
    }
    forall f: nat | f < WORD_SIZE * |b1|
      ensures Test(b1, f)
    {
      WordMeaning(b1, f / WORD_SIZE);
    }
    assert tot <= WORD_SIZE * |b0|;
    assert UsedFrames(b0, tot) == Span(0, tot);
    SpanSize(tot);
  }

  lemma {:induction false} SpanSize(n: nat)
    ensures |Span(0, n)| == n
  {
    if n > 0 {
      SpanSize(n - 1);
    }
  }

  /** Region k is the lowest one that is large enough. */
  ghost predicate Chosen(regions: seq<Region>, k: int, bytes: nat) {
    1 <= k < |regions| && SizeOf(regions, k) >= bytes && forall j :: k < j < |regions| ==> SizeOf(regions, j) < bytes
  }

  /** _init looks at sizes only: the bitmaps lie in available memory exactly when the lowest region
      that is large enough happens to be available. */
  lemma BitmapsAvailableExactly(regions: seq<Region>, k: int, bytes: nat)
    requires IsRegionList(regions) && Chosen(regions, k, bytes) && bytes > 0
    ensures (forall a: nat :: regions[k].start <= a < regions[k].start + bytes ==> Available(regions, |regions|, a))
       <==> regions[k].typ == REGION_TYPE_AVAIL
  {
    forall a: nat | regions[k].start <= a < regions[k].start + bytes
      ensures Available(regions, |regions|, a) <==> regions[k].typ == REGION_TYPE_AVAIL
    {
      assert IsAvailableIn(regions, k, a) <==> regions[k].typ == REGION_TYPE_AVAIL;
      if Available(regions, |regions|, a) {
        var i :| IsAvailableIn(regions, i, a);
        assert i == k;
      }
    }
    if regions[k].typ != REGION_TYPE_AVAIL {
      assert !Available(regions, |regions|, regions[k].start);
    }
  }

  ghost function Span(a: nat, b: nat): (s: set<nat>)
    ensures forall f :: f in s <==> a <= f < b
  {
    if a < b then Span(a, b - 1) + {b - 1} else {}
  }
}
