/** Two runs of the frame allocator that end where kernel/mem/bitmap.c does not do what it is
    meant to. */
module BitmapRuns {
  import opened Common
  import opened Words
  import opened MemoryMap
  import opened Bitmap

  // ----- the int shift of lines 136 and 143 -----

  function Allocs(n: nat): seq<Op> {
    seq(n, _ => DoAlloc)
  }

  /** Some limits and bitmaps at which _alloc is led to an entirely free word. */
  ghost predicate LeadsToEmptyWord(l: Limits, m: Maps, i: nat, j1: nat) {
    && Sandwich(m.b0, m.b1, l.tot) && l.used != l.tot && j1 <= 30
    && Way(m.b0, m.b1, l.fastStart, l.fastEnd, i, j1, 0)
    && m.b0[WORD_SIZE * i + j1] == 0
  }

  /** The bitmaps when the lowest k bits of word w have been handed out. */
  ghost function Drained(m: Maps, w: nat, k: nat): Maps
    requires w < |m.b0|
  {
    Maps(m.b0[w := Pow2(k) - 1], m.b1)
  }

  /** The answers: k frames in a row, from the word's first one on. */
  ghost function InARow(w: nat, k: nat): seq<AllocResult> {
    seq(k, j requires 0 <= j => Frame(FrameAddr(0, WORD_SIZE * w + j)))
  }

  /** Wherever the search meets an entirely free word, the code as it stands hands out its first 31
      frames, and the 32nd allocation shifts an int by 31. */
  lemma {:induction false} DrainingReachesBit31(l: Limits, m: Maps, i: nat, j1: nat, k: nat)
    requires LeadsToEmptyWord(l, m, i, j1) && k <= 31
    ensures Replay(AsWritten, l, m, Allocs(k)) == (Drained(m, WORD_SIZE * i + j1, k), InARow(WORD_SIZE * i + j1, k))
    ensures Answer(AsWritten, l, Drained(m, WORD_SIZE * i + j1, 31), DoAlloc) == UndefinedShift
    ensures Answer(Documented, l, Drained(m, WORD_SIZE * i + j1, 31), DoAlloc)
            == Frame(FrameAddr(0, WORD_SIZE * (WORD_SIZE * i + j1) + 31))
  {
    hide Sandwich, Way, Answer, Changed, Drained, Pow2;
    var w := WORD_SIZE * i + j1;
    WayInside(l, m, i, j1);
    NextOfDrained(l, m, i, j1, 31);
    if k == 0 {
      NothingDrained(l, m, i, j1);
      assert Allocs(0) == [] && InARow(w, 0) == [];
    } else {
      DrainingReachesBit31(l, m, i, j1, k - 1);
      NextOfDrained(l, m, i, j1, k - 1);
      assert Allocs(k)[..k - 1] == Allocs(k - 1);
      assert InARow(w, k) == InARow(w, k - 1) + [Frame(FrameAddr(0, WORD_SIZE * w + (k - 1)))];
    }
  }

  lemma WayInside(l: Limits, m: Maps, i: nat, j1: nat)
    requires LeadsToEmptyWord(l, m, i, j1)
    ensures WORD_SIZE * i + j1 < |m.b0| && i < |m.b1| && WORD_SIZE * i + j1 < WORD_SIZE * |m.b1|
  {
  }

  lemma NothingDrained(l: Limits, m: Maps, i: nat, j1: nat)
    requires LeadsToEmptyWord(l, m, i, j1)
    ensures WORD_SIZE * i + j1 < |m.b0| && Drained(m, WORD_SIZE * i + j1, 0) == m
  {
  }

  /** The next allocation when the lowest k bits of the word are set. */
  lemma NextOfDrained(l: Limits, m: Maps, i: nat, j1: nat, k: nat)
    requires LeadsToEmptyWord(l, m, i, j1) && k <= 31
    ensures WORD_SIZE * i + j1 < |m.b0|
    ensures var d, w := Drained(m, WORD_SIZE * i + j1, k), WORD_SIZE * i + j1;
            var next := Frame(FrameAddr(0, WORD_SIZE * w + k));
            && Answer(Documented, l, d, DoAlloc) == next
            && Answer(AsWritten, l, d, DoAlloc) == (if k <= 30 then next else UndefinedShift)
            && Changed(d, DoAlloc, next) == Drained(m, w, k + 1)
  {
    hide Sandwich, Test, Found, Way, Changed, Pow2;
    WayInside(l, m, i, j1);
    var w := WORD_SIZE * i + j1;
    var d := Drained(m, w, k);
    SummaryPick(l, m, i, j1, k);
    ChangedWord(m, w, k);
  }

  lemma SummaryPick(l: Limits, m: Maps, i: nat, j1: nat, k: nat)
    requires LeadsToEmptyWord(l, m, i, j1) && k <= 31
    ensures WORD_SIZE * i + j1 < |m.b0|
    ensures var d := Drained(m, WORD_SIZE * i + j1, k);
            Found(d.b0, d.b1, l.fastStart, l.fastEnd) == Some(Pick(i, j1, k))
  {
    hide Sandwich, WindowLo, WindowHi, Pow2;
    SearchTakesWay(m.b0, m.b1, l.tot, l.fastStart, l.fastEnd);
    assert Found(m.b0, m.b1, l.fastStart, l.fastEnd) == Some(Pick(i, j1, 0));
    FirstOfOnes(k);
  }

  lemma FirstOfOnes(k: nat)
    requires k < WORD_SIZE
    ensures FirstClear(Pow2(k) - 1, 0) == k
  {
    var r := FirstClear(Pow2(k) - 1, 0);
    LowOnes(k, r);
    LowOnes(k, k);
  }

  /** Setting bit k of the word leaves it with room, so the summary stays. */
  lemma ChangedWord(m: Maps, w: nat, k: nat)
    requires w < |m.b0| && w / WORD_SIZE < |m.b1| && k <= 31
    ensures Changed(Drained(m, w, k), DoAlloc, Frame(FrameAddr(0, WORD_SIZE * w + k))) == Drained(m, w, k + 1)
  {
    LowOnes(k, k);
    var f := WORD_SIZE * w + k;
    assert f / WORD_SIZE == w && f % WORD_SIZE == k && FrameAddr(0, f) / PAGE_SIZE == f;
    NotFull(k + 1, WORD_SIZE);
  }

  lemma NotFull(k: nat, n: nat)
    requires k < n == WORD_SIZE
    ensures Pow2(k) - 1 < WORD_MAX
  {
    WordMaxIsFull(n);
    PowMono(k, n - 1);
    assert Pow2(n) == 2 * Pow2(n - 1);
  }

  /** 128 frames: the lower half reserved, and large enough for the bitmaps; the upper half
      available. */
  function HalfReserved(): seq<Region> {
    [Region(2 * WORD_SIZE * PAGE_SIZE, REGION_TYPE_NONE), Region(WORD_SIZE * PAGE_SIZE, REGION_TYPE_AVAIL),
     Region(0, REGION_TYPE_RSVD)]
  }

  lemma HalfReservedUsed()
    ensures IsRegionList(HalfReserved())
    ensures InitiallyUsed(HalfReserved(), 0, 2 * WORD_SIZE, 0, 8 * (2 + 1)) == Span(0, WORD_SIZE)
  {
    var regions := HalfReserved();
    forall f: nat | f < 2 * WORD_SIZE
      ensures Available(regions, |regions|, FrameAddr(0, f)) <==> f >= WORD_SIZE
    {
      assert IsAvailableIn(regions, 1, FrameAddr(0, f)) <==> f >= WORD_SIZE;
    }
  }

  /** After _init on these regions _alloc is led to an entirely free word at once, so that its 32nd
      call shifts too far. */
  lemma InitLeadsToEmptyWord(b0: seq<nat>, b1: seq<nat>)
    requires Sandwich(b0, b1, 2 * WORD_SIZE)
    requires UsedFrames(b0, 2 * WORD_SIZE)
             == InitiallyUsed(HalfReserved(), 0, 2 * WORD_SIZE, 0, 8 * (|b0| + |b1|))
    ensures LeadsToEmptyWord(Limits(2 * WORD_SIZE, WORD_SIZE, 0, FRAMES_PER_GROUP * PAGE_SIZE), Maps(b0, b1), 0, 1)
  {
    HalfReservedUsed();
    UpperWordFree(b0, b1);
  }

  lemma UpperWordFree(b0: seq<nat>, b1: seq<nat>)
    requires Sandwich(b0, b1, 2 * WORD_SIZE) && UsedFrames(b0, 2 * WORD_SIZE) == Span(0, WORD_SIZE)
    ensures |b0| == 2 && |b1| == 1 && b0[1] == 0
    ensures FirstOpen(b1, 0, FRAMES_PER_GROUP * PAGE_SIZE, 0) && LowestClear(b1[0], 1) && LowestClear(0, 0)
  {
    forall f: nat | f < 2 * WORD_SIZE
      ensures Test(b0, f) <==> f < WORD_SIZE
    {
      assert f in UsedFrames(b0, 2 * WORD_SIZE) <==> Test(b0, f);
    }
    WordMeaning(b0, 0);
    WordMeaning(b0, 1);
    WordMeaning(b1, 0);
    assert Test(b1, 0) && !Test(b1, 1);
  }

  // ----- the counter of line 117 -----

  /** 64 frames of memory, all of them in use after _init, and a window that covers them. */
  function StaleLimits(): Limits {
    Limits(WORD_SIZE, WORD_SIZE, 0, FRAMES_PER_GROUP * PAGE_SIZE)
  }

  /** 64 frames, of which only the first is available, and it must hold the bitmaps. */
  function OnePageAvailable(): seq<Region> {
    [Region(WORD_SIZE * PAGE_SIZE, REGION_TYPE_NONE), Region(PAGE_SIZE, REGION_TYPE_RSVD),
     Region(0, REGION_TYPE_AVAIL)]
  }

  lemma OnePageAvailableUsed()
    ensures IsRegionList(OnePageAvailable())
    ensures InitiallyUsed(OnePageAvailable(), 0, WORD_SIZE, 0, 8 * (1 + 1)) == Span(0, WORD_SIZE)
  {
    var regions := OnePageAvailable();
    forall f: nat | f < WORD_SIZE
      ensures Available(regions, |regions|, FrameAddr(0, f)) <==> f == 0
    {
      assert IsAvailableIn(regions, 2, FrameAddr(0, f)) <==> f == 0;
    }
  }

  /** After _init on these regions every frame is in use. */
  lemma InitFillsMemory(b0: seq<nat>, b1: seq<nat>)
    requires Sandwich(b0, b1, WORD_SIZE)
    requires UsedFrames(b0, WORD_SIZE)
             == InitiallyUsed(OnePageAvailable(), 0, WORD_SIZE, 0, 8 * (|b0| + |b1|))
    ensures Maps(b0, b1) == Maps([WORD_MAX], [WORD_MAX])
  {
    OnePageAvailableUsed();
    AllWordsFull(b0, b1);
  }

  lemma AllWordsFull(b0: seq<nat>, b1: seq<nat>)
    requires Sandwich(b0, b1, WORD_SIZE) && UsedFrames(b0, WORD_SIZE) == Span(0, WORD_SIZE)
    ensures b0 == [WORD_MAX] && b1 == [WORD_MAX]
  {
    forall f: nat | f < WORD_SIZE
      ensures Test(b0, f)
    {
      assert f in UsedFrames(b0, WORD_SIZE);
    }
    WordMeaning(b0, 0);
    WordMeaning(b1, 0);
  }

  function Frees(n: nat): seq<Op> {
    seq(n, j requires 0 <= j => DoFree(j * PAGE_SIZE))
  }

  /** The bitmaps when the lowest k frames have been freed. */
  ghost function FreedUpTo(k: nat): Maps
    requires k <= WORD_SIZE
  {
    PowMono(k, WORD_SIZE);
    Maps([Pow2(WORD_SIZE) - Pow2(k)], [if k == WORD_SIZE then WORD_MAX - 1 else WORD_MAX])
  }

  lemma {:induction false} FreeingEmptiesWord(rev: Revision, k: nat)
    requires k <= WORD_SIZE
    ensures Replay(rev, StaleLimits(), Maps([WORD_MAX], [WORD_MAX]), Frees(k)).0 == FreedUpTo(k)
  {
    var l, m := StaleLimits(), Maps([WORD_MAX], [WORD_MAX]);
    if k == 0 {
      WordMaxIsFull(WORD_SIZE);
      assert Frees(0) == [];
    } else {
      FreeingEmptiesWord(rev, k - 1);
      assert Frees(k)[..k - 1] == Frees(k - 1) && Frees(k)[k - 1] == DoFree((k - 1) * PAGE_SIZE);
      FreedNext(rev, k - 1);
    }
  }

  lemma FreedNext(rev: Revision, k: nat)
    requires k < WORD_SIZE
    ensures var m, op := FreedUpTo(k), DoFree(k * PAGE_SIZE);
            && Answer(rev, StaleLimits(), m, op) == Frame(k * PAGE_SIZE)
            && Changed(m, op, Frame(k * PAGE_SIZE)) == FreedUpTo(k + 1)
  {
    hide Pow2;
    var m := FreedUpTo(k);
    HighOnes(WORD_SIZE, k);
    assert k * PAGE_SIZE / PAGE_SIZE == k && k / WORD_SIZE == 0 && k % WORD_SIZE == k;
    assert Test(m.b0, k);
    StrictlyLess(k + 1);
  }

  lemma StrictlyLess(k: nat)
    requires k <= WORD_SIZE
    ensures Pow2(WORD_SIZE) - Pow2(k) == 0 <==> k == WORD_SIZE
  {
    if k < WORD_SIZE {
      PowMono(k, WORD_SIZE - 1);
    }
  }

  /** Freeing all frames of that memory leaves a counter that still says full: the next allocation
      is refused although the window's only word is entirely free. */
  lemma StaleCounterRefuses(rev: Revision)
    ensures var m := Replay(rev, StaleLimits(), Maps([WORD_MAX], [WORD_MAX]), Frees(WORD_SIZE)).0;
            && m == Maps([0], [WORD_MAX - 1]) && Answer(rev, StaleLimits(), m, DoAlloc) == Invalid
            && !NoEmptyWord(m.b0, 0, FRAMES_PER_GROUP * PAGE_SIZE)
  {
    FreeingEmptiesWord(rev, WORD_SIZE);
  }
}
