/** The layers together, as kernel/arch/x86_64/boot/kinit.c brings them up: from the firmware's table in
    memory to the memory map, from the map to the frame allocator, from its first frame to an address
    space and any run of calls in it. */
module Boot {
  import opened Common
  import opened MemoryMap
  import opened Multiboot
  import Tags
  import BootMap
  import Words
  import Bitmap
  import Vmm
  import VmmRuns

  /** The window given to the frame allocator on line 159. */
  const FAST_START := 0x100_0000
  const FAST_END := 0x00ff_ffff_ffff_f000

  /** The width of a page table entry's address. */
  const PHYS_LIMIT := 0x10_0000_0000_0000

  predicate Fits(start: nat, len: nat) {
    start + len + PAGE_SIZE <= PHYS_LIMIT
  }

  /** What is in memory at boot: the firmware's entries, its table, the kernel. */
  datatype Machine = Machine(es: seq<Entry>, tabAddr: nat, tabSize: nat, kernel: nat, kernelSize: nat)

  predicate Sane(m: Machine) {
    && (forall e | e in m.es :: Fits(e.start, e.len))
    && Fits(m.tabAddr, m.tabSize) && Fits(m.kernel, m.kernelSize)
  }

  /** A page of memory that firmware calls available, by type 1, and that holds nothing yet. */
  ghost predicate Vacant(m: Machine, p: nat) {
    && (exists e :: e in m.es && e.typ == 1 && Inside(p, e.start, e.len))
    && (forall e | e in m.es && e.typ != 1 :: !Touches(p, e.start, e.len))
    && !Touches(p, m.tabAddr, m.tabSize) && !Touches(p, m.kernel, m.kernelSize)
  }

  /** The memory map with the kernel's own pages marked, lines 100-103. */
  function KernelMap(m: Machine): Option<seq<Region>> {
    match LoadAll(Documented, m.es, m.tabAddr, m.tabSize)
    case None => None
    case Some(c) =>
      if Terminated(c) then
        Insert(Documented, c, AlignDown(m.kernel), AlignUp64(m.kernel + m.kernelSize), REGION_TYPE_KERNEL)
      else None
  }

  lemma RoundedBelow(start: nat, len: nat)
    requires Fits(start, len)
    ensures AlignDown(start) <= AlignUp64(start + len) <= PHYS_LIMIT && AlignUp64(start) <= PHYS_LIMIT
    ensures AlignDown(start + len) <= PHYS_LIMIT
    ensures AlignDown(start) % PAGE_SIZE == 0 && AlignUp64(start + len) % PAGE_SIZE == 0
  {
  }

  lemma EntryBelow(e: Entry)
    requires Fits(e.start, e.len)
    ensures Lo(e) <= PHYS_LIMIT && Hi(e) <= PHYS_LIMIT && !TooWide(Lo(e), Hi(e))
  {
    hide AlignDown, AlignUp64;
    RoundedBelow(e.start, e.len);
    RoundedInside(e);
  }

  lemma RoundedInside(e: Entry)
    requires Fits(e.start, e.len)
    ensures Lo(e) == AlignUp64(e.start) || Lo(e) == AlignDown(e.start)
    ensures Hi(e) == AlignUp64(e.start + e.len) || Hi(e) == AlignDown(e.start + e.len)
  {
    hide TypeOf, AlignDown, AlignUp64;
  }

  lemma OrderedMeans(c: seq<Region>)
    requires Ordered(c)
    ensures Terminated(c)
  {
    OrderedIsTerminated(c, c[0].start);
  }

  /** The firmware's entries alone. */
  lemma EntriesOnPages(m: Machine)
    requires Sane(m)
    ensures var r := InsertAll(Documented, NOTHING_KNOWN, m.es);
            r.Some? && Terminated(r.value) && OnPages(r.value, PHYS_LIMIT)
    ensures !AnyTooWide(m.es, m.tabAddr, m.tabSize)
  {
    hide InsertAll, Lo, Hi, TooWide;
    forall e | e in m.es
      ensures Lo(e) <= PHYS_LIMIT && Hi(e) <= PHYS_LIMIT && !TooWide(Lo(e), Hi(e))
    {
      EntryBelow(e);
    }
    RoundedBelow(m.tabAddr, m.tabSize);
    LoadOnPages(NOTHING_KNOWN, m.es, PHYS_LIMIT);
    LoadedIsTerminated(NOTHING_KNOWN, m.es);
    TableNarrow(m);
  }

  lemma TableNarrow(m: Machine)
    requires Fits(m.tabAddr, m.tabSize)
    ensures !TooWide(AlignDown(m.tabAddr), AlignUp64(m.tabAddr + m.tabSize))
  {
    RoundedBelow(m.tabAddr, m.tabSize);
  }

  /** With the firmware's table. */
  lemma LoadedMap(m: Machine)
    requires Sane(m)
    ensures var r := LoadAll(Documented, m.es, m.tabAddr, m.tabSize);
            r.Some? && Ordered(r.value) && Terminated(r.value) && OnPages(r.value, PHYS_LIMIT)
  {
    hide Insert, Ordered, OnPages, InsertAll, Terminated, AlignDown, AlignUp64, StrongestType, TypeAt, Raised;
    EntriesOnPages(m);
    LoadAllTypes(m.es, m.tabAddr, m.tabSize);
    RoundedBelow(m.tabAddr, m.tabSize);
    var d := InsertAll(Documented, NOTHING_KNOWN, m.es).value;
    InsertOnPages(d, AlignDown(m.tabAddr), AlignUp64(m.tabAddr + m.tabSize), REGION_TYPE_MULTIBOOT2, PHYS_LIMIT);
    OrderedMeans(LoadAll(Documented, m.es, m.tabAddr, m.tabSize).value);
  }

  /** With the kernel: the map is in order and ends below 2^52. */
  lemma KernelMapIs(m: Machine)
    requires Sane(m)
    ensures KernelMap(m).Some? && Ordered(KernelMap(m).value) && OnPages(KernelMap(m).value, PHYS_LIMIT)
    ensures IsRaised(KernelMap(m), LoadAll(Documented, m.es, m.tabAddr, m.tabSize).value,
                     AlignDown(m.kernel), AlignUp64(m.kernel + m.kernelSize), REGION_TYPE_KERNEL)
  {
    hide LoadAll, Insert, Ordered, OnPages, Terminated, TypeAt, AlignDown, AlignUp64, Raised, IsRaised;
    LoadedMap(m);
    RoundedBelow(m.kernel, m.kernelSize);
    var c := LoadAll(Documented, m.es, m.tabAddr, m.tabSize).value;
    var start, end := AlignDown(m.kernel), AlignUp64(m.kernel + m.kernelSize);
    InsertIsPointwiseMax(c, start, end, REGION_TYPE_KERNEL);
    InsertOnPages(c, start, end, REGION_TYPE_KERNEL, PHYS_LIMIT);
    RaisedMeans(KernelMap(m), c, start, end, REGION_TYPE_KERNEL);
  }

  lemma RaisedMeans(r: Option<seq<Region>>, c: seq<Region>, start: nat, end: nat, typ: nat)
    requires IsRaised(r, c, start, end, typ)
    ensures r.Some? && Ordered(r.value)
    ensures forall p: nat :: TypeAt(r.value, p) == Raised(TypeAt(c, p), p, start, end, typ)
  {
  }

  /** It calls exactly the vacant pages available. */
  lemma AvailableIsVacant(m: Machine, p: nat)
    requires Sane(m) && p % PAGE_SIZE == 0
    ensures KernelMap(m).Some?
    ensures TypeAt(KernelMap(m).value, p) == REGION_TYPE_AVAIL <==> Vacant(m, p)
  {
    hide LoadAll, KernelMap, Ordered, OnPages, TypeAt, AlignDown, AlignUp64, Touches, Inside, IsRaised;
    KernelMapIs(m);
    AvailableExactly(m.es, m.tabAddr, m.tabSize, p);
    RoundingOutwards(p, m.kernel, m.kernelSize);
    var c := LoadAll(Documented, m.es, m.tabAddr, m.tabSize).value;
    RaisedMeans(KernelMap(m), c, AlignDown(m.kernel), AlignUp64(m.kernel + m.kernelSize), REGION_TYPE_KERNEL);
  }

  // ----- the regions the allocator gets -----

  /** The list the boot code passes on line 159: the map from the entry above the first available one. */
  ghost predicate IsFirst(c: seq<Region>, first: nat) {
    first + 1 < |c| && c[first + 1].typ == REGION_TYPE_AVAIL
    && forall j :: 1 <= j <= first ==> c[j].typ != REGION_TYPE_AVAIL
  }

  /** Lines 150-158; no entry is available in a list of one, and the entry at index 0 does not count. */
  method FindFirst(regmap: Mmap) returns (found: bool, first: nat, tot: nat)
    requires regmap.Valid()
    ensures tot == |regmap.contents|
    ensures if found then IsFirst(regmap.contents, first)
            else forall j :: 1 <= j < |regmap.contents| ==> regmap.contents[j].typ != REGION_TYPE_AVAIL
  {
    regmap.HoldsAt(regmap.contents);
    LastStarts(regmap.contents);
    ghost var c := regmap.contents;
    found, first, tot := false, 0, 0;
    var more := true;
    while more
      invariant tot <= |c| && (more <==> tot < |c|)
      invariant if found then first + 1 < tot && IsFirst(c, first)
                else forall j :: 1 <= j < tot ==> c[j].typ != REGION_TYPE_AVAIL
      decreases |c| - tot
    {
      if regmap.r[tot].typ == REGION_TYPE_AVAIL && !found && tot > 0 {
        found, first := true, tot - 1;
      }
      more := regmap.r[tot].start != 0;
      tot := tot + 1;
    }
  }

  /** The list is one the allocator can work on, from address 0 to the end of memory. */
  lemma ListFits(c: seq<Region>, first: nat)
    requires Ordered(c) && OnPages(c, PHYS_LIMIT) && first + 1 < |c|
    ensures Bitmap.IsRegionList(c[first..]) && Ordered(c[first..])
    ensures c[|c| - 1].start == 0 && c[first].start <= PHYS_LIMIT
  {
    OrderedMeans(c);
    OrderedSuffix(c, c[0].start, first);
    var l := c[first..];
    forall i, j | 0 <= i < j < |l|
      ensures l[i].start >= l[j].start
    {
      HeadStarts(l, l[0].start, j + 1);
    }
  }

  lemma LookupInList(c: seq<Region>, first: nat, p: nat)
    requires Ordered(c) && first < |c| && p < c[first].start
    ensures TypeAt(c[first..], p) == TypeAt(c, p)
  {
    assert c[..first] + c[first..] == c;
    if first > 0 {
      HeadStarts(c, c[0].start, first + 1);
      LookupSplit(c, first, c[first..], c[first - 1].start, p);
    }
  }

  /** The boot code passes the number of entries of the whole map although the list starts at `first`,
      so that the allocator also sees that many array entries behind the terminator.  It works with
      the same memory when they start at 0, as they do in an array that was zero to begin with and
      never shrank. */
  lemma TrailingRegions(regions: seq<Region>, behind: seq<Region>, addr: nat)
    requires Bitmap.IsRegionList(regions) && regions[|regions| - 1].start == 0
    requires forall i :: 0 <= i < |behind| ==> behind[i].start == 0
    ensures var all := regions + behind;
            && Bitmap.IsRegionList(all) && all[0] == regions[0] && all[|all| - 1].start == 0
            && (Bitmap.Available(all, |all|, addr) <==> Bitmap.Available(regions, |regions|, addr))
  {
    var all := regions + behind;
    forall i | 1 <= i < |all|
      ensures Bitmap.IsAvailableIn(all, i, addr) <==> i < |regions| && Bitmap.IsAvailableIn(regions, i, addr)
    {
    }
    if Bitmap.Available(all, |all|, addr) {
      var i :| Bitmap.IsAvailableIn(all, i, addr) && i < |all|;
      assert Bitmap.IsAvailableIn(regions, i, addr);
    }
    if Bitmap.Available(regions, |regions|, addr) {
      var i :| Bitmap.IsAvailableIn(regions, i, addr) && i < |regions|;
      assert Bitmap.IsAvailableIn(all, i, addr);
    }
  }

  // ----- from power-on to a run -----

  /** How far it got: the memory map, the allocator's list, the bitmaps, the root table, the run. */
  datatype Stage = NoMap | NoMemory | NoBitmaps | NoRoot | Ran(st: Vmm.Status)

  /** Every frame that the allocator has handed out is a vacant page, and no byte of the bitmaps is in it. */
  ghost predicate AllVacant(m: Machine, frames: set<nat>, mapAddr: nat, bytes: nat) {
    forall f :: f in frames ==> Vacant(m, f * PAGE_SIZE) && !Touches(f * PAGE_SIZE, mapAddr, bytes)
  }

  /** The list that the allocator gets has no region for two arrays of 64-bit words, with a bit for each
      frame and a bit for each word of those. */
  ghost predicate NoRoom(m: Machine) {
    && KernelMap(m).Some?
    && exists first: nat :: IsFirst(KernelMap(m).value, first) && NoRoomIn(KernelMap(m).value[first..])
  }

  ghost predicate NoRoomIn(l: seq<Region>) {
    l != [] && forall i :: 1 <= i < |l| ==> Bitmap.SizeOf(l, i) < MapBytes(l[0].start / PAGE_SIZE)
  }

  /** The bytes of these arrays. */
  function MapBytes(tot: nat): nat {
    8 * ((tot + 63) / 64 + ((tot + 63) / 64 + 63) / 64)
  }

  lemma NoRoomMeans(m: Machine, first: nat)
    requires KernelMap(m).Some? && IsFirst(KernelMap(m).value, first) && NoRoomIn(KernelMap(m).value[first..])
    ensures NoRoom(m)
  {
    hide KernelMap, NoRoomIn;
  }

  lemma MapBytesIs(tot: nat, words0: nat, words1: nat)
    requires tot <= 64 * words0 < tot + 64 && words0 <= 64 * words1 < words0 + 64
    ensures 8 * (words0 + words1) == MapBytes(tot)
  {
    LeastWords(tot, words0);
    LeastWords(words0, words1);
  }

  /** The numbers of words that Init promises are these. */
  lemma LeastWords(n: nat, words: nat)
    requires n <= 64 * words < n + 64
    ensures words == (n + 63) / 64
  {
  }

  /** A frame that was not in use after _init is a vacant page. */
  lemma UnusedIsVacant(m: Machine, first: nat, tot: nat, mapAddr: nat, bytes: nat, f: nat)
    requires Sane(m) && KernelMap(m).Some? && first + 1 < |KernelMap(m).value|
    requires var l := KernelMap(m).value[first..];
             && tot == l[0].start / PAGE_SIZE && f < tot
             && f !in Bitmap.InitiallyUsed(l, 0, tot, mapAddr, bytes)
    requires mapAddr % PAGE_SIZE == 0
    ensures Vacant(m, f * PAGE_SIZE) && !Touches(f * PAGE_SIZE, mapAddr, bytes)
  {
    hide KernelMap, Ordered, OnPages, TypeAt, IsRaised, Vacant, Sane, Bitmap.IsRegionList;
    KernelMapIs(m);
    var c := KernelMap(m).value;
    ListFits(c, first);
    var l, p := c[first..], f * PAGE_SIZE;
    assert Bitmap.FrameAddr(0, f) == p;
    assert p < l[0].start;
    Bitmap.AvailableIsLookup(l, p);
    LookupInList(c, first, p);
    AvailableIsVacant(m, p);
  }

  /** ... and only then. */
  lemma VacantIsUnused(m: Machine, first: nat, tot: nat, mapAddr: nat, bytes: nat, f: nat)
    requires Sane(m) && KernelMap(m).Some? && first + 1 < |KernelMap(m).value|
    requires var l := KernelMap(m).value[first..];
             && tot == l[0].start / PAGE_SIZE && f < tot
             && f in Bitmap.InitiallyUsed(l, 0, tot, mapAddr, bytes)
    requires mapAddr % PAGE_SIZE == 0
    ensures !Vacant(m, f * PAGE_SIZE) || Touches(f * PAGE_SIZE, mapAddr, bytes)
  {
    hide KernelMap, Ordered, OnPages, TypeAt, IsRaised, Vacant, Sane, Bitmap.IsRegionList;
    KernelMapIs(m);
    var c := KernelMap(m).value;
    ListFits(c, first);
    var l, p := c[first..], f * PAGE_SIZE;
    assert Bitmap.FrameAddr(0, f) == p;
    assert p < l[0].start;
    Bitmap.AvailableIsLookup(l, p);
    LookupInList(c, first, p);
    AvailableIsVacant(m, p);
  }

  /** In every aligned block of 64 frames that the limits enclose with the whole group around it, some
      frame is not vacant or holds a byte of the bitmaps. */
  ghost predicate BlocksTaken(m: Machine, tot: nat, mapAddr: nat, bytes: nat) {
    forall w: nat :: 64 * (w + 1) <= tot && Bitmap.GroupInside(w / 64, FAST_START, FAST_END) ==>
      TakenIn(m, w, mapAddr, bytes)
  }

  ghost predicate TakenIn(m: Machine, w: nat, mapAddr: nat, bytes: nat) {
    exists f: nat :: f / 64 == w && (!Vacant(m, f * PAGE_SIZE) || Touches(f * PAGE_SIZE, mapAddr, bytes))
  }

  /** No such block was left for the first allocation, wherever _init put the bitmaps. */
  ghost predicate NoBlock(m: Machine) {
    && KernelMap(m).Some?
    && exists first: nat, mapAddr: nat ::
         && IsFirst(KernelMap(m).value, first)
         && var tot := KernelMap(m).value[first].start / PAGE_SIZE; BlocksTaken(m, tot, mapAddr, MapBytes(tot))
  }

  lemma NoBlockLeft(m: Machine, first: nat, mapAddr: nat, bytes: nat)
    requires KernelMap(m).Some? && IsFirst(KernelMap(m).value, first)
    requires var tot := KernelMap(m).value[first].start / PAGE_SIZE;
             bytes == MapBytes(tot) && BlocksTaken(m, tot, mapAddr, bytes)
    ensures NoBlock(m)
  {
    hide BlocksTaken, MapBytes, KernelMap;
  }

  /** A refusal of the first allocation, told by the machine. */
  lemma RefusedMeansTaken(pm: Bitmap.FrameAllocator, m: Machine, first: nat)
    requires Sane(m) && KernelMap(m).Some? && first + 1 < |KernelMap(m).value|
    requires pm.Valid() && pm.outstanding == {} && pm.totBlk == KernelMap(m).value[first].start / PAGE_SIZE
    requires pm.reserved == Bitmap.InitiallyUsed(KernelMap(m).value[first..], 0, pm.totBlk, pm.mapAddr,
                                                 8 * (pm.bm0.Length + pm.bm1.Length))
    requires pm.mapAddr % PAGE_SIZE == 0 && Bitmap.NoEmptyWord(pm.bm0[..], FAST_START, FAST_END)
    ensures BlocksTaken(m, pm.totBlk, pm.mapAddr, 8 * (pm.bm0.Length + pm.bm1.Length))
  {
    hide Sane, KernelMap, Vacant, Touches, Bitmap.InitiallyUsed, Bitmap.GroupInside, TakenIn;
    var mapAddr, bytes, tot := pm.mapAddr, 8 * (pm.bm0.Length + pm.bm1.Length), pm.totBlk;
    forall w: nat | 64 * (w + 1) <= tot && Bitmap.GroupInside(w / 64, FAST_START, FAST_END)
      ensures TakenIn(m, w, mapAddr, bytes)
    {
      var f := UsedInWord(pm, w);
      VacantIsUnused(m, first, tot, mapAddr, bytes, f);
      TakenBy(m, w, mapAddr, bytes, f);
    }
  }

  lemma TakenBy(m: Machine, w: nat, mapAddr: nat, bytes: nat, f: nat)
    requires f / 64 == w && (!Vacant(m, f * PAGE_SIZE) || Touches(f * PAGE_SIZE, mapAddr, bytes))
    ensures TakenIn(m, w, mapAddr, bytes)
  {
    hide Vacant, Touches;
  }

  lemma UsedInWord(pm: Bitmap.FrameAllocator, w: nat) returns (f: nat)
    requires pm.Valid() && pm.outstanding == {} && 64 * (w + 1) <= pm.totBlk
    requires Bitmap.NoEmptyWord(pm.bm0[..], FAST_START, FAST_END) && Bitmap.GroupInside(w / 64, FAST_START, FAST_END)
    ensures f / 64 == w && f < pm.totBlk && f in pm.reserved
  {
    hide Bitmap.GroupInside, Words.Test;
    var b0 := pm.bm0[..];
    assert w < |b0| && b0[w] != 0;
    Words.WordMeaning(b0, w);
    var k: nat :| k / 64 == w && Words.Test(b0, k);
    assert k in pm.Used();
    f := k;
  }

  /** Without an available entry below the first one no page is vacant. */
  lemma NothingVacant(m: Machine)
    requires Sane(m) && KernelMap(m).Some?
    requires forall j :: 1 <= j < |KernelMap(m).value| ==> KernelMap(m).value[j].typ != REGION_TYPE_AVAIL
    ensures forall p: nat :: p % PAGE_SIZE == 0 ==> !Vacant(m, p)
  {
    hide KernelMap, Ordered, OnPages, TypeAt, Vacant, IsRaised;
    KernelMapIs(m);
    var c := KernelMap(m).value;
    OrderedMeans(c);
    AboveAll(m, c);
    forall p: nat | p % PAGE_SIZE == 0
      ensures !Vacant(m, p)
    {
      AvailableIsVacant(m, p);
      FoundIn(c, p);
    }
  }

  lemma FoundIn(c: seq<Region>, p: nat)
    requires Terminated(c)
    ensures exists i :: 0 <= i < |c| && TypeAt(c, p) == c[i].typ
  {
    var i := First(c, p);
    assert c[|c| - 1].start == 0 <= p;
    TypeAtFirst(c, p);
    assert TypeAt(c, p) == c[i].typ;
  }

  /** The open first entry is not available memory: no entry reaches that far. */
  lemma AboveAll(m: Machine, c: seq<Region>)
    requires Sane(m) && KernelMap(m) == Some(c) && c != [] && OnPages(c, PHYS_LIMIT)
    ensures c[0].typ != REGION_TYPE_AVAIL
  {
    hide KernelMap, AlignDown, AlignUp64;
    AvailableIsVacant(m, PHYS_LIMIT);
    assert TypeAt(c, PHYS_LIMIT) == c[0].typ;
  }

  /** Lines 99-103. */
  method LoadKernelMap(fw: Tags.Firmware, m: Machine, ghost ts: seq<Tags.Tag>, ghost k: nat, ghost version: nat)
    returns (ok: bool, regmap: Mmap)
    requires fw.table.Some? && fw.table.value == Tags.Table(ts) && m.tabSize == |Tags.Table(ts)| * 4
    requires BootMap.Describes(ts, k, m.es, version) && Sane(m)
    ensures fresh(regmap) && fresh(regmap.r)
    ensures 5 + 2 * |m.es| <= MMAP_MAX_NUM_ENTRIES ==> ok
    ensures ok ==> regmap.Valid() && Some(regmap.contents) == KernelMap(m)
  {
    hide Ordered, OnPages, Tags.Table, Tags.Position, Tags.AllSound, BootMap.Describes, LoadAll, Insert, Terminated,
         AnyTooWide, AlignDown, AlignUp64, Sane, OutOfSpace, PageAligned;
    TagThere(ts, k, m.es, version);
    RoomForKernel(m);
    var o;
    o, regmap := BootMap.LoadFromTable(Documented, fw, m.tabAddr, ts, k, m.es, version);
    if o != Some(Done) {
      return false, regmap;
    }
    var start, end := AlignDown(m.kernel), AlignUp64(m.kernel + m.kernelSize);
    var r := regmap.InsertRegion(Documented, start, end, REGION_TYPE_KERNEL);
    ok := r == Done;
  }

  /** All that loading and marking the kernel's pages needs. */
  lemma RoomForKernel(m: Machine)
    requires Sane(m)
    ensures m.tabAddr + m.tabSize + PAGE_SIZE <= WORD_LIMIT && !AnyTooWide(m.es, m.tabAddr, m.tabSize)
    ensures var r := LoadAll(Documented, m.es, m.tabAddr, m.tabSize);
            r.Some? && Terminated(r.value) && |r.value| <= 3 + 2 * |m.es|
    ensures PageAligned(AlignDown(m.kernel)) && PageAligned(AlignUp64(m.kernel + m.kernelSize))
  {
    hide Ordered, OnPages, LoadAll, Insert, InsertAll, Terminated, AnyTooWide, AlignDown, AlignUp64, PageAligned;
    EntriesOnPages(m);
    LoadedMap(m);
    LoadedLength(m);
    PagesAligned(m.kernel, m.kernelSize);
  }

  lemma TagThere(ts: seq<Tags.Tag>, k: nat, es: seq<Entry>, version: nat)
    requires BootMap.Describes(ts, k, es, version)
    ensures Tags.AllSound(ts) && Tags.Position(ts, BootMap.MB2_TAG_TYPE_MMAP).Some?
  {
    hide Tags.Position;
    var found := Tags.PositionIsFirst(ts, BootMap.MB2_TAG_TYPE_MMAP);
    BootMap.MmapTyped(es, version);
    assert ts[k].typ == BootMap.MB2_TAG_TYPE_MMAP;
  }

  lemma PagesAligned(start: nat, len: nat)
    requires Fits(start, len)
    ensures PageAligned(AlignDown(start)) && PageAligned(AlignUp64(start + len))
  {
    RoundedBelow(start, len);
  }

  /** An insertion of a table adds at most two entries to those of the firmware. */
  lemma LoadedLength(m: Machine)
    requires Sane(m)
    ensures LoadAll(Documented, m.es, m.tabAddr, m.tabSize).Some?
    ensures |LoadAll(Documented, m.es, m.tabAddr, m.tabSize).value| <= 3 + 2 * |m.es|
  {
    hide Insert, InsertAll, Ordered, OnPages, Terminated, AlignDown, AlignUp64, StrongestType, TypeAt, Raised;
    LoadedMap(m);
    EntriesOnPages(m);
    LoadIsStrongest(NOTHING_KNOWN, m.es);
    RoundedBelow(m.tabAddr, m.tabSize);
    var d := InsertAll(Documented, NOTHING_KNOWN, m.es).value;
    InsertLength(d, AlignDown(m.tabAddr), AlignUp64(m.tabAddr + m.tabSize), REGION_TYPE_MULTIBOOT2);
  }

  /** Line 159. */
  method InitAllocator(pm: Bitmap.FrameAllocator, regmap: Mmap, first: nat, tot: nat, m: Machine) returns (ok: bool)
    requires Sane(m) && regmap.Valid() && Some(regmap.contents) == KernelMap(m)
    requires first + 1 < |regmap.contents| == tot
    modifies pm
    ensures fresh(pm.bm0) && fresh(pm.bm1)
    ensures ok ==> pm.Valid() && pm.CounterFresh() && pm.outstanding == {}
    ensures ok ==> pm.base == 0 && pm.totBlk == regmap.contents[first].start / PAGE_SIZE <= 0x100_0000_0000
    ensures ok ==> pm.fastStart == FAST_START && pm.fastEnd == FAST_END
    ensures !ok ==> NoRoomIn(regmap.contents[first..])
    ensures ok ==> pm.totBlk <= 64 * pm.bm0.Length < pm.totBlk + 64
    ensures ok ==> pm.bm0.Length <= 64 * pm.bm1.Length < pm.bm0.Length + 64
    ensures ok ==> pm.reserved == Bitmap.InitiallyUsed(regmap.contents[first..], 0, pm.totBlk, pm.mapAddr,
                                                       8 * (pm.bm0.Length + pm.bm1.Length))
    ensures ok ==> pm.mapAddr % PAGE_SIZE == 0
  {
    hide KernelMap, Ordered, OnPages, Sane, Terminated, Bitmap.InitiallyUsed, Bitmap.IsRegionList,
         Bitmap.FrameAllocator.Counted, Bitmap.FrameAllocator.Levels, Bitmap.FrameAllocator.Valid, Bitmap.SizeOf;
    KernelMapIs(m);
    ListFits(regmap.contents, first);
    regmap.HoldsAt(regmap.contents);
    var regions := regmap.r[first..tot];
    assert regions == regmap.contents[first..];
    ok := pm.Init(regions, FAST_START, FAST_END);
    if ok {
      ReservedIs(pm);
      ghost var k :| Bitmap.Chosen(regions, k, 8 * (pm.bm0.Length + pm.bm1.Length)) && pm.mapAddr == regions[k].start;
      Bitmap.ListStarts(regions, k);
    } else {
      MapBytesIs(pm.totBlk, pm.bm0.Length, pm.bm1.Length);
    }
  }

  lemma ReservedIs(pm: Bitmap.FrameAllocator)
    requires pm.Valid() && pm.outstanding == {}
    ensures pm.reserved == pm.Used()
  {
  }

  lemma OutstandingUnused(s: Vmm.AddressSpace)
    requires s.Valid()
    ensures forall f :: f in s.pm.outstanding ==> f < s.pm.totBlk && f !in s.reserved
  {
  }

  lemma OutstandingVacant(s: Vmm.AddressSpace, m: Machine, first: nat, mapAddr: nat, bytes: nat)
    requires Sane(m) && KernelMap(m).Some? && first + 1 < |KernelMap(m).value|
    requires s.Valid() && s.pm.totBlk == KernelMap(m).value[first].start / PAGE_SIZE && mapAddr % PAGE_SIZE == 0
    requires s.reserved == Bitmap.InitiallyUsed(KernelMap(m).value[first..], 0, s.pm.totBlk, mapAddr, bytes)
    ensures AllVacant(m, s.pm.outstanding, mapAddr, bytes)
  {
    hide Sane, KernelMap, Vacant, Touches, Vmm.AddressSpace.Valid, Bitmap.InitiallyUsed;
    OutstandingUnused(s);
    forall f | f in s.pm.outstanding
      ensures Vacant(m, f * PAGE_SIZE) && !Touches(f * PAGE_SIZE, mapAddr, bytes)
    {
      UnusedIsVacant(m, first, s.pm.totBlk, mapAddr, bytes, f);
    }
  }

  /** The first frame becomes the root table, and the calls run. */
  method RunOn(pm: Bitmap.FrameAllocator, m: Machine, ghost first: nat, calls: seq<VmmRuns.Call>)
    returns (stage: Stage, s: Vmm.AddressSpace?)
    requires Sane(m) && KernelMap(m).Some? && first + 1 < |KernelMap(m).value|
    requires pm.Valid() && pm.CounterFresh() && pm.outstanding == {}
    requires pm.fastStart == FAST_START && pm.fastEnd == FAST_END
    requires pm.base == 0 && pm.totBlk == KernelMap(m).value[first].start / PAGE_SIZE <= 0x100_0000_0000
    requires pm.reserved == Bitmap.InitiallyUsed(KernelMap(m).value[first..], 0, pm.totBlk, pm.mapAddr,
                                                 8 * (pm.bm0.Length + pm.bm1.Length))
    requires pm.mapAddr % PAGE_SIZE == 0
    requires forall c :: c in calls ==> VmmRuns.Legal(c)
    modifies pm`outstanding, pm`reserved, pm.bm0, pm.bm1
    ensures stage.Ran? || stage == NoRoot
    ensures stage == NoRoot ==> Bitmap.NoEmptyWord(pm.bm0[..], FAST_START, FAST_END)
    ensures stage == NoRoot ==> BlocksTaken(m, pm.totBlk, pm.mapAddr, 8 * (pm.bm0.Length + pm.bm1.Length))
    ensures stage.Ran? && stage.st != Vmm.Ok && stage.st != Vmm.OutOfFrames ==>
              !VmmRuns.NothingStops(VmmRuns.Flat(map[], Vmm.KRNL_HEAP_START, {}), calls)
    ensures stage == Ran(Vmm.Ok) ==>
              && s != null && s.Valid() && VmmRuns.NothingStops(VmmRuns.Flat(map[], Vmm.KRNL_HEAP_START, {}), calls)
              && VmmRuns.Shows(s.mem, s.tables, s.backed,
                               VmmRuns.Replay(VmmRuns.Flat(map[], Vmm.KRNL_HEAP_START, {}), calls).pages)
              && AllVacant(m, s.pm.outstanding, s.pm.mapAddr, 8 * (s.pm.bm0.Length + s.pm.bm1.Length))
  {
    hide Sane, KernelMap, VmmRuns.Shows, VmmRuns.Replay, VmmRuns.NothingStops, VmmRuns.Legal, Vacant,
         Vmm.AddressSpace.Valid, Vmm.AddressSpace.Blames, Bitmap.InitiallyUsed,
         Bitmap.FrameAllocator.Valid, Bitmap.AllocOutcome, Bitmap.SetIn, Bitmap.NoEmptyWord, BlocksTaken, AllVacant;
    ghost var mapAddr, bytes := pm.mapAddr, 8 * (pm.bm0.Length + pm.bm1.Length);
    ShiftsDefined(pm);
    var root := pm.Alloc(Documented);
    if !root.Frame? {
      RefusedMeansTaken(pm, m, first);
      return NoRoot, null;
    }
    assert pm.outstanding == {root.addr / PAGE_SIZE};
    var st;
    s, st := VmmRuns.Live(Documented, pm, root.addr / PAGE_SIZE, {}, calls);
    if st == Vmm.Ok {
      OutstandingVacant(s, m, first, mapAddr, bytes);
    }
    NoShift(s, st);
    return Ran(st), s;
  }

  lemma ShiftsDefined(pm: Bitmap.FrameAllocator)
    ensures Bitmap.AllocOutcome(Documented, pm.bm0[..], pm.bm1[..], pm.base, pm.totBlk, pm.usedBlk, pm.fastStart,
                                pm.fastEnd) != Bitmap.UndefinedShift
  {
  }

  lemma NoShift(s: Vmm.AddressSpace, st: Vmm.Status)
    requires s.rev == Documented && (st != Vmm.Ok ==> s.Blames(st))
    ensures st != Vmm.ShiftTooFar
  {
  }

  /** Lines 99-103 and 150-161: from the words of the firmware's table to any run of calls in the first
      address space.  The page tables then show what the calls did, and every frame handed out since is
      a page that firmware called available and that nothing else occupies. */
  method Start(fw: Tags.Firmware, m: Machine, calls: seq<VmmRuns.Call>, ghost ts: seq<Tags.Tag>, ghost k: nat,
               ghost version: nat)
    returns (stage: Stage, s: Vmm.AddressSpace?)
    requires fw.table.Some? && fw.table.value == Tags.Table(ts) && m.tabSize == |Tags.Table(ts)| * 4
    requires BootMap.Describes(ts, k, m.es, version) && Sane(m)
    requires forall c :: c in calls ==> VmmRuns.Legal(c)
    ensures 5 + 2 * |m.es| <= MMAP_MAX_NUM_ENTRIES ==> stage != NoMap
    ensures stage == NoMemory ==> forall p: nat :: p % PAGE_SIZE == 0 ==> !Vacant(m, p)
    ensures stage == NoBitmaps ==> NoRoom(m)
    ensures stage == NoRoot ==> NoBlock(m)
    ensures stage.Ran? && stage.st != Vmm.Ok && stage.st != Vmm.OutOfFrames ==>
              !VmmRuns.NothingStops(VmmRuns.Flat(map[], Vmm.KRNL_HEAP_START, {}), calls)
    ensures stage == Ran(Vmm.Ok) ==>
              && s != null && s.Valid() && VmmRuns.NothingStops(VmmRuns.Flat(map[], Vmm.KRNL_HEAP_START, {}), calls)
              && VmmRuns.Shows(s.mem, s.tables, s.backed,
                               VmmRuns.Replay(VmmRuns.Flat(map[], Vmm.KRNL_HEAP_START, {}), calls).pages)
              && AllVacant(m, s.pm.outstanding, s.pm.mapAddr, 8 * (s.pm.bm0.Length + s.pm.bm1.Length))
  {
    hide Sane, KernelMap, Ordered, OnPages, Tags.Table, BootMap.Describes, LoadAll, Insert, VmmRuns.Shows,
         VmmRuns.Replay, VmmRuns.NothingStops, Vacant, Bitmap.InitiallyUsed,
         Bitmap.FrameAllocator.Valid, IsFirst, NoBlock, NoRoom, BlocksTaken, MapBytes, AllVacant,
         Vmm.AddressSpace.Valid;
    s := null;
    var ok, regmap := LoadKernelMap(fw, m, ts, k, version);
    if !ok {
      return NoMap, null;
    }
    var found, first, tot := FindFirst(regmap);
    if !found {
      NothingVacant(m);
      return NoMemory, null;
    }
    FirstMeans(regmap.contents, first);
    var pm := new Bitmap.FrameAllocator();
    ok := InitAllocator(pm, regmap, first, tot, m);
    if !ok {
      NoRoomMeans(m, first);
      return NoBitmaps, null;
    }
    MapBytesIs(pm.totBlk, pm.bm0.Length, pm.bm1.Length);
    stage, s := RunOn(pm, m, first, calls);
    if stage == NoRoot {
      NoBlockLeft(m, first, pm.mapAddr, 8 * (pm.bm0.Length + pm.bm1.Length));
    }
  }

  lemma FirstMeans(c: seq<Region>, first: nat)
    requires IsFirst(c, first)
    ensures first + 1 < |c|
  {
  }
}
