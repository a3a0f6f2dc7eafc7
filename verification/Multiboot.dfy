/** Loading the firmware memory map, kernel/multiboot2.c: every entry of the multiboot2 memory
    map tag (section 3.6.8 of the Multiboot2 specification) is rounded to pages and inserted
    into the boot memory map, and the multiboot2 table itself last. */
module Multiboot {
  import opened Common
  import opened MemoryMap

  const WORD_LIMIT := 0x1_0000_0000_0000_0000

  /** An entry of the firmware map: 64-bit start and length, 32-bit type. */
  datatype Entry = Entry(start: nat, len: nat, typ: nat)

  predicate Is64Bit(e: Entry) {
    e.start < WORD_LIMIT && e.len < WORD_LIMIT
  }

  /** MB2_MREG_TYPE and _cvt_mb2_mmap_typ: unknown types count as reserved. */
  function TypeOf(e: Entry): nat {
    match e.typ
    case 1 => REGION_TYPE_AVAIL
    case 3 => REGION_TYPE_ACPI_RECLAIM
    case 4 => REGION_TYPE_ACPI_NVS
    case _ => REGION_TYPE_RSVD
  }

  /** PAGE_ALGN_UP on 64-bit words, where the addition can wrap. */
  function AlignUp64(x: nat): nat {
    AlignDown((x + (PAGE_SIZE - 1)) % WORD_LIMIT)
  }

  function EndOf(e: Entry): nat {
    (e.start + e.len) % WORD_LIMIT
  }

  function Lo(e: Entry): nat {
    if TypeOf(e) == REGION_TYPE_AVAIL then AlignUp64(e.start) else AlignDown(e.start)
  }

  function Hi(e: Entry): nat {
    if TypeOf(e) == REGION_TYPE_AVAIL then AlignDown(EndOf(e)) else AlignUp64(EndOf(e))
  }

  /** No sum of 64-bit words wraps around when the entry is rounded. */
  predicate Whole(e: Entry) {
    e.start + e.len + PAGE_SIZE <= WORD_LIMIT
  }

  /** A range that the insertion refuses with BadArgument: it passes 56 bits. */
  predicate TooWide(start: nat, end: nat) {
    start < end && end >= PADDR_LIMIT
  }

  predicate Covers(e: Entry, p: nat) {
    Lo(e) <= p < Hi(e)
  }

  /** The strongest type among the rounded entries that cover p, and at least `base`. */
  function StrongestType(es: seq<Entry>, base: nat, p: nat): nat {
    if es == [] then base
    else
      var e := es[|es| - 1];
      Raised(StrongestType(es[..|es| - 1], base, p), p, Lo(e), Hi(e), TypeOf(e))
  }

  /** StrongestType is the least upper bound: this is its meaning, free of any order. */
  lemma {:induction false} StrongestIsMax(es: seq<Entry>, base: nat, p: nat)
    ensures StrongestType(es, base, p) >= base
    ensures forall e | e in es && Covers(e, p) :: TypeOf(e) <= StrongestType(es, base, p)
    ensures StrongestType(es, base, p) == base
            || exists e :: e in es && Covers(e, p) && TypeOf(e) == StrongestType(es, base, p)
  {
    if es != [] {
      StrongestIsMax(es[..|es| - 1], base, p);
      assert forall x :: x in es <==> x in es[..|es| - 1] || x == es[|es| - 1];
    }
  }

  /** The loaded map does not depend on the order of the firmware's entries. */
  lemma OrderIndependent(xs: seq<Entry>, ys: seq<Entry>, base: nat, p: nat)
    requires multiset(xs) == multiset(ys)
    ensures StrongestType(xs, base, p) == StrongestType(ys, base, p)
  {
    StrongestIsMax(xs, base, p);
    StrongestIsMax(ys, base, p);
    forall e
      ensures e in xs <==> e in ys
    {
      assert e in multiset(xs) <==> e in multiset(ys);
    }
  }

  /** The first page boundary at or after x, and the last one at or before it, on a circle of 2^64 addresses. */
  predicate IsUp(b: int, x: int) {
    0 <= b < WORD_LIMIT && b % PAGE_SIZE == 0 && (b - x) % WORD_LIMIT < PAGE_SIZE
  }

  predicate IsDown(b: int, x: int) {
    0 <= b < WORD_LIMIT && b % PAGE_SIZE == 0 && (x - b) % WORD_LIMIT < PAGE_SIZE
  }

  /** Every entry, those included whose sums wrap around, is rounded on 64-bit words: available memory
      (type 1) inwards, everything else outwards. */
  lemma RoundedModulo(e: Entry)
    requires Is64Bit(e)
    ensures if e.typ == 1 then IsUp(Lo(e), e.start) && IsDown(Hi(e), e.start + e.len)
            else IsDown(Lo(e), e.start) && IsUp(Hi(e), e.start + e.len)
  {
    hide IsUp, IsDown, AlignUp64, AlignDown;
    RoundedUp(e.start, e.start);
    RoundedUp(e.start + e.len, EndOf(e));
    RoundedDown(e.start, e.start);
    RoundedDown(e.start + e.len, EndOf(e));
  }

  lemma RoundedDown(x: nat, w: nat)
    requires w == x % WORD_LIMIT
    ensures IsDown(AlignDown(w), x)
  {
    DivMod(x - AlignDown(w), WORD_LIMIT, x / WORD_LIMIT, w - AlignDown(w));
  }

  lemma RoundedUp(x: nat, w: nat)
    requires w == x % WORD_LIMIT
    ensures IsUp(AlignUp64(w), x)
  {
    var k := x / WORD_LIMIT;
    if w + (PAGE_SIZE - 1) < WORD_LIMIT {
      DivMod(AlignUp64(w) - x, WORD_LIMIT, 0 - k, AlignUp64(w) - w);
    } else {
      DivMod(0 - x, WORD_LIMIT, 0 - k - 1, WORD_LIMIT - w);
    }
  }

  // ----- inserting the entries one after the other -----

  /** An available entry that holds no whole page can round to an end below its start, as can an entry
      that wraps around.  It is meant to add nothing; as written it is inserted all the same. */
  function InsertEntry(rev: Revision, c: seq<Region>, e: Entry): Option<seq<Region>> {
    if rev == Documented && Lo(e) > Hi(e) then Some(c)
    else if Terminated(c) then Insert(rev, c, Lo(e), Hi(e), TypeOf(e)) else None
  }

  function InsertAll(rev: Revision, c: seq<Region>, es: seq<Entry>): Option<seq<Region>> {
    if es == [] then Some(c)
    else
      match InsertAll(rev, c, es[..|es| - 1])
      case None => None
      case Some(d) => InsertEntry(rev, d, es[|es| - 1])
  }

  lemma RoundedAligned(e: Entry)
    ensures Lo(e) < Hi(e) ==> (PageAligned(Lo(e)) && PageAligned(Hi(e)) <==> !TooWide(Lo(e), Hi(e)))
  {
  }

  /** What loading is for: an ordered map in which every address has the strongest type of
      the entries that cover it. */
  ghost predicate IsLoaded(r: Option<seq<Region>>, c: seq<Region>, es: seq<Entry>) {
    && r.Some?
    && Ordered(r.value)
    && forall p: nat :: TypeAt(r.value, p) == StrongestType(es, TypeAt(c, p), p)
  }

  lemma LoadStep(r: Option<seq<Region>>, d: seq<Region>, c: seq<Region>, es: seq<Entry>)
    requires es != []
    requires IsLoaded(Some(d), c, es[..|es| - 1])
    requires var e := es[|es| - 1]; IsRaised(r, d, Lo(e), Hi(e), TypeOf(e))
    ensures IsLoaded(r, c, es)
  {
    var e := es[|es| - 1];
    forall p: nat
      ensures TypeAt(r.value, p) == StrongestType(es, TypeAt(c, p), p)
    {
      assert TypeAt(r.value, p) == Raised(TypeAt(d, p), p, Lo(e), Hi(e), TypeOf(e));
    }
  }

  /** Loading entries raises every address to the strongest type covering it. */
  lemma {:induction false} LoadIsStrongest(c: seq<Region>, es: seq<Entry>)
    requires Ordered(c)
    ensures IsLoaded(InsertAll(Documented, c, es), c, es)
    ensures |InsertAll(Documented, c, es).value| <= |c| + 2 * |es|
  {
    if es != [] {
      var front, e := es[..|es| - 1], es[|es| - 1];
      LoadIsStrongest(c, front);
      var d := InsertAll(Documented, c, front).value;
      OrderedIsTerminated(d, d[0].start);
      if Lo(e) <= Hi(e) {
        InsertIsPointwiseMax(d, Lo(e), Hi(e), TypeOf(e));
        InsertLength(d, Lo(e), Hi(e), TypeOf(e));
      }
      LoadStep(InsertEntry(Documented, d, e), d, c, es);
    }
  }

  /** The check a caller of the code as it stands could make before an insertion. */
  predicate EntrySafe(d: Option<seq<Region>>, e: Entry) {
    && d.Some? && Terminated(d.value)
    && if Lo(e) <= Hi(e) then InsertSafe(d.value, Lo(e), Hi(e), TypeOf(e))
       else TypeOf(e) <= TypeAt(d.value, Hi(e)) || Hi(e) == 0
  }

  predicate LoadSafe(c: seq<Region>, es: seq<Entry>) {
    es == [] || (LoadSafe(c, es[..|es| - 1]) && EntrySafe(InsertAll(AsWritten, c, es[..|es| - 1]), es[|es| - 1]))
  }

  lemma EntrySafeExactly(d: seq<Region>, e: Entry)
    requires Ordered(d)
    ensures EntrySafe(Some(d), e) <==> IsRaised(InsertEntry(AsWritten, d, e), d, Lo(e), Hi(e), TypeOf(e))
  {
    OrderedIsTerminated(d, d[0].start);
    if Lo(e) <= Hi(e) {
      AsWrittenIsPointwiseMaxExactly(d, Lo(e), Hi(e), TypeOf(e));
    } else {
      InvertedRange(AsWritten, d, Lo(e), Hi(e), TypeOf(e));
    }
  }

  /** After a right load, the next entry is loaded right exactly when it is inserted right. */
  lemma LoadStepBack(r: Option<seq<Region>>, d: seq<Region>, c: seq<Region>, es: seq<Entry>)
    requires es != []
    requires IsLoaded(Some(d), c, es[..|es| - 1]) && IsLoaded(r, c, es)
    ensures var e := es[|es| - 1]; IsRaised(r, d, Lo(e), Hi(e), TypeOf(e))
  {
    var e := es[|es| - 1];
    forall p: nat
      ensures TypeAt(r.value, p) == Raised(TypeAt(d, p), p, Lo(e), Hi(e), TypeOf(e))
    {
      assert TypeAt(d, p) == StrongestType(es[..|es| - 1], TypeAt(c, p), p);
    }
  }

  /** The code as it stands loads right after every entry. */
  ghost predicate LoadsAllAlong(c: seq<Region>, es: seq<Entry>) {
    forall k :: 0 <= k <= |es| ==> IsLoaded(InsertAll(AsWritten, c, es[..k]), c, es[..k])
  }

  /** The code as it stands loads right all along exactly when every insertion is harmless at its
      turn: the first one that is not leaves a wrong map. */
  lemma {:induction false} AsWrittenLoadExactly(c: seq<Region>, es: seq<Entry>)
    requires Ordered(c)
    ensures LoadSafe(c, es) <==> LoadsAllAlong(c, es)
  {
    hide EntrySafe, InsertEntry, IsRaised;
    if es == [] {
      NothingLoaded(c);
      assert forall k :: 0 <= k <= |es| ==> es[..k] == [];
    } else {
      var last := |es| - 1;
      var front, e := es[..last], es[last];
      AsWrittenLoadExactly(c, front);
      AllAlongFront(c, es);
      if LoadsAllAlong(c, front) {
        assert front[..last] == front;
        LoadedIsOrdered(InsertAll(AsWritten, c, front), c, front);
        var d := InsertAll(AsWritten, c, front).value;
        EntrySafeExactly(d, e);
        if EntrySafe(Some(d), e) {
          LoadStep(InsertEntry(AsWritten, d, e), d, c, es);
        } else if IsLoaded(InsertAll(AsWritten, c, es), c, es) {
          LoadStepBack(InsertEntry(AsWritten, d, e), d, c, es);
        }
      }
    }
  }

  lemma NothingLoaded(c: seq<Region>)
    requires Ordered(c)
    ensures IsLoaded(InsertAll(AsWritten, c, []), c, [])
  {
  }

  lemma LoadedIsOrdered(r: Option<seq<Region>>, c: seq<Region>, es: seq<Entry>)
    requires IsLoaded(r, c, es)
    ensures r.Some? && Ordered(r.value)
  {
  }

  lemma AllAlongFront(c: seq<Region>, es: seq<Entry>)
    requires es != []
    ensures LoadsAllAlong(c, es) <==> LoadsAllAlong(c, es[..|es| - 1]) && IsLoaded(InsertAll(AsWritten, c, es), c, es)
  {
    hide IsLoaded, InsertAll;
    var front := es[..|es| - 1];
    assert forall k :: 0 <= k < |es| ==> front[..k] == es[..k];
    assert es[..|es|] == es;
    if LoadsAllAlong(c, es) {
      forall k | 0 <= k <= |front|
        ensures IsLoaded(InsertAll(AsWritten, c, front[..k]), c, front[..k])
      {
        assert IsLoaded(InsertAll(AsWritten, c, es[..k]), c, es[..k]);
      }
    }
    if LoadsAllAlong(c, front) && IsLoaded(InsertAll(AsWritten, c, es), c, es) {
      forall k | 0 <= k <= |es|
        ensures IsLoaded(InsertAll(AsWritten, c, es[..k]), c, es[..k])
      {
        if k < |es| {
          assert IsLoaded(InsertAll(AsWritten, c, front[..k]), c, front[..k]);
        }
      }
    }
  }

  const NOTHING_KNOWN := [Region(0, REGION_TYPE_NONE)]

  /** Entries that firmware lists from low addresses upwards and without overlap. */
  predicate Ascending(es: seq<Entry>) {
    && (forall i :: 0 <= i < |es| ==> Lo(es[i]) <= Hi(es[i]))
    && (forall i, j :: 0 <= i < j < |es| ==> Hi(es[i]) <= Lo(es[j]))
  }

  /** On such entries the code as it stands loads right: each goes into the first array entry. */
  lemma {:induction false} AscendingLoadsSafely(es: seq<Entry>)
    requires Ascending(es)
    ensures LoadSafe(NOTHING_KNOWN, es)
    ensures var r := InsertAll(AsWritten, NOTHING_KNOWN, es);
            && r.Some? && Terminated(r.value) && r.value[0].typ == REGION_TYPE_NONE
            && r.value[0].start <= if es == [] then 0 else Hi(es[|es| - 1])
  {
    hide Lo, Hi, TypeOf;
    if es != [] {
      var last := |es| - 1;
      var front, e := es[..last], es[last];
      AscendingLoadsSafely(front);
      var d := InsertAll(AsWritten, NOTHING_KNOWN, front).value;
      if front != [] {
        assert Hi(es[last - 1]) <= Lo(e);
      }
      Typed(e);
      TopInsert(d, Lo(e), Hi(e), TypeOf(e));
    }
  }

  lemma Typed(e: Entry)
    ensures REGION_TYPE_NONE < TypeOf(e) <= REGION_TYPE_MASK
  {
  }

  /** A range above everything but the open first entry. */
  lemma TopInsert(c: seq<Region>, start: nat, end: nat, typ: nat)
    requires Terminated(c) && c[0].typ == REGION_TYPE_NONE && c[0].start <= start <= end && typ > REGION_TYPE_NONE
    ensures InsertSafe(c, start, end, typ)
    ensures var r := Insert(AsWritten, c, start, end, typ);
            r.Some? && Terminated(r.value) && r.value[0].typ == REGION_TYPE_NONE && r.value[0].start <= end
  {
    hide Sweep, SweepSafe;
    assert First(c, end) == 0 && c[0..] == c && First(c, start) == 0 && StartIdx(c, start, end) == 0;
    if start < end {
      var rest := if c[0].start == start then c[1..] else c;
      var low := [Region(end, REGION_TYPE_NONE), Region(start, typ)] + rest;
      assert InsertBelow(AsWritten, c, 0, start, end, typ) == Some(low);
      assert c[..0] + low == low;
    }
  }

  /** The range of the entry [0x9fc00, 0x9fe00) is rounded to an end below its start, and leaves a map
      out of order. */
  lemma TinyEntryBreaksOrder()
    ensures var e := Entry(0x9_fc00, 0x200, 1);
            && Lo(e) == 0xa_0000 && Hi(e) == 0x9_f000
            && InsertAll(AsWritten, NOTHING_KNOWN, [e]).Some?
            && !Ordered(InsertAll(AsWritten, NOTHING_KNOWN, [e]).value)
            && IsLoaded(InsertAll(Documented, NOTHING_KNOWN, [e]), NOTHING_KNOWN, [e])
  {
    var e := Entry(0x9_fc00, 0x200, 1);
    assert [e][..0] == [];
    InvertedRange(AsWritten, NOTHING_KNOWN, Lo(e), Hi(e), TypeOf(e));
    LoadIsStrongest(NOTHING_KNOWN, [e]);
  }

  /** _fill_mmap, up to the first entry that the insertion refuses.  As documented, with two array
      places for each entry, it is stopped by entries that pass 56 bits and by nothing else. */
  method FillMmap(rev: Revision, mb2: seq<Entry>, regmap: Mmap) returns (o: Outcome)
    requires regmap.Valid()
    requires forall e | e in mb2 :: Is64Bit(e)
    modifies regmap, regmap.r
    ensures o == Done ==> regmap.Valid() && InsertAll(rev, old(regmap.contents), mb2) == Some(regmap.contents)
    ensures rev == Documented && Ordered(old(regmap.contents))
            && |old(regmap.contents)| + 2 * |mb2| <= MMAP_MAX_NUM_ENTRIES ==>
              o == if exists e :: e in mb2 && TooWide(Lo(e), Hi(e)) then BadArgument else Done
  {
    hide Insert, InsertAll, Ordered, TypeOf, Lo, Hi, Is64Bit, TooWide, OutOfSpace, PageAligned, Terminated;
    ghost var c := regmap.contents;
    InsertNone(rev, c, mb2);
    var i := 0;
    while i < |mb2|
      invariant 0 <= i <= |mb2|
      invariant regmap.Valid() && InsertAll(rev, c, mb2[..i]) == Some(regmap.contents)
      invariant rev == Documented ==> forall k :: 0 <= k < i ==> !TooWide(Lo(mb2[k]), Hi(mb2[k]))
    {
      var e := mb2[i];
      InsertNext(rev, c, mb2, i);
      RoundedAligned(e);
      NotWide(e);
      Typed(e);
      if !(rev == Documented && Lo(e) > Hi(e)) {
        if rev == Documented && Ordered(c) {
          RoomLeft(c, mb2, i);
        }
        o := regmap.InsertRegion(rev, Lo(e), Hi(e), TypeOf(e));
        if o != Done {
          assert e in mb2;
          return;
        }
      }
      i := i + 1;
    }
    assert mb2[..|mb2|] == mb2;
    return Done;
  }

  lemma InsertNone(rev: Revision, c: seq<Region>, es: seq<Entry>)
    ensures InsertAll(rev, c, es[..0]) == Some(c)
  {
  }

  lemma InsertNext(rev: Revision, c: seq<Region>, es: seq<Entry>, i: nat)
    requires i < |es|
    ensures InsertAll(rev, c, es[..i + 1])
            == match InsertAll(rev, c, es[..i]) case None => None case Some(d) => InsertEntry(rev, d, es[i])
  {
    hide InsertEntry;
    assert es[..i + 1][..i] == es[..i];
  }

  lemma NotWide(e: Entry)
    ensures Lo(e) >= Hi(e) ==> !TooWide(Lo(e), Hi(e))
  {
  }

  /** With room for two more entries per insertion, all go in. */
  lemma RoomLeft(c: seq<Region>, es: seq<Entry>, i: nat)
    requires i < |es| && Ordered(c)
    ensures InsertAll(Documented, c, es[..i]).Some?
    ensures |InsertAll(Documented, c, es[..i]).value| + 2 <= |c| + 2 * |es|
  {
    LoadIsStrongest(c, es[..i]);
  }

  /** When all ranges end at or below a page, so do all starts in the map. */
  lemma {:induction false} LoadOnPages(c: seq<Region>, es: seq<Entry>, limit: nat)
    requires Ordered(c) && OnPages(c, limit)
    requires forall e | e in es :: Lo(e) <= limit && Hi(e) <= limit
    ensures InsertAll(Documented, c, es).Some? && OnPages(InsertAll(Documented, c, es).value, limit)
  {
    hide Insert, OnPages, Ordered, Lo, Hi, TypeOf, StrongestType;
    LoadIsStrongest(c, es);
    if es != [] {
      var front, e := es[..|es| - 1], es[|es| - 1];
      assert e in es && forall x :: x in front ==> x in es;
      LoadOnPages(c, front, limit);
      LoadedIsTerminated(c, front);
      RoundedPages(e);
      InsertOnPages(InsertAll(Documented, c, front).value, Lo(e), Hi(e), TypeOf(e), limit);
    }
  }

  lemma RoundedPages(e: Entry)
    ensures Lo(e) % PAGE_SIZE == 0 && Hi(e) % PAGE_SIZE == 0
  {
  }

  lemma LoadedIsTerminated(c: seq<Region>, es: seq<Entry>)
    requires Ordered(c)
    ensures InsertAll(Documented, c, es).Some? && Terminated(InsertAll(Documented, c, es).value)
  {
    LoadIsStrongest(c, es);
    var d := InsertAll(Documented, c, es).value;
    OrderedIsTerminated(d, d[0].start);
  }

  // ----- end to end: which pages become available -----

  function LoadAll(rev: Revision, mb2: seq<Entry>, tabAddr: nat, tabSize: nat): Option<seq<Region>> {
    match InsertAll(rev, NOTHING_KNOWN, mb2)
    case None => None
    case Some(d) =>
      if Terminated(d) then
        Insert(rev, d, AlignDown(tabAddr), AlignUp64(tabAddr + tabSize), REGION_TYPE_MULTIBOOT2)
      else None
  }

  /** The loaded map: the strongest type of the firmware's entries, then of the table. */
  lemma LoadAllTypes(mb2: seq<Entry>, tabAddr: nat, tabSize: nat)
    requires tabAddr + tabSize + PAGE_SIZE <= WORD_LIMIT
    ensures var r := LoadAll(Documented, mb2, tabAddr, tabSize);
            && r.Some? && Ordered(r.value)
            && forall p: nat :: TypeAt(r.value, p) ==
                 Raised(StrongestType(mb2, REGION_TYPE_NONE, p), p,
                        AlignDown(tabAddr), AlignUp64(tabAddr + tabSize), REGION_TYPE_MULTIBOOT2)
  {
    var base := NOTHING_KNOWN;
    LoadIsStrongest(base, mb2);
    var d := InsertAll(Documented, base, mb2).value;
    OrderedIsTerminated(d, d[0].start);
    RoundingOutwards(0, tabAddr, tabSize);
    InsertIsPointwiseMax(d, AlignDown(tabAddr), AlignUp64(tabAddr + tabSize), REGION_TYPE_MULTIBOOT2);
    forall p: nat
      ensures TypeAt(base, p) == REGION_TYPE_NONE
    {
    }
  }

  /** mem_load_mb2_mmap, table insertion part: from the map that knows nothing, the firmware's
      entries and then the page range of the multiboot2 table. */
  method LoadMap(rev: Revision, mb2: seq<Entry>, tabAddr: nat, tabSize: nat) returns (o: Outcome, regmap: Mmap)
    requires forall e | e in mb2 :: Is64Bit(e)
    ensures fresh(regmap) && fresh(regmap.r)
    ensures o == Done ==> regmap.Valid() && LoadAll(rev, mb2, tabAddr, tabSize) == Some(regmap.contents)
    ensures rev == Documented && 3 + 2 * |mb2| <= MMAP_MAX_NUM_ENTRIES
            && tabAddr + tabSize + PAGE_SIZE <= WORD_LIMIT ==>
              o == if AnyTooWide(mb2, tabAddr, tabSize) then BadArgument else Done
  {
    hide TooWide;
    regmap := new Mmap();
    o := FillMmap(rev, mb2, regmap);
    if o == Done {
      if rev == Documented && tabAddr + tabSize + PAGE_SIZE <= WORD_LIMIT {
        TableFits(mb2, tabAddr, tabSize);
      }
      o := regmap.InsertRegion(rev, AlignDown(tabAddr), AlignUp64(tabAddr + tabSize), REGION_TYPE_MULTIBOOT2);
    }
  }

  /** An entry or the table itself passes 56 bits. */
  predicate AnyTooWide(mb2: seq<Entry>, tabAddr: nat, tabSize: nat) {
    (exists e :: e in mb2 && TooWide(Lo(e), Hi(e))) || TooWide(AlignDown(tabAddr), AlignUp64(tabAddr + tabSize))
  }

  lemma TableFits(mb2: seq<Entry>, tabAddr: nat, tabSize: nat)
    requires tabAddr + tabSize + PAGE_SIZE <= WORD_LIMIT
    ensures var d := InsertAll(Documented, NOTHING_KNOWN, mb2);
            d.Some? && |d.value| <= 1 + 2 * |mb2|
    ensures var start, end := AlignDown(tabAddr), AlignUp64(tabAddr + tabSize);
            TooWide(start, end) <==> start != end && !(PageAligned(start) && PageAligned(end))
  {
    LoadIsStrongest(NOTHING_KNOWN, mb2);
    RoundingOutwards(0, tabAddr, tabSize);
  }

  /** The page at p shares a byte with [start, start + len), or start lies inside it. */
  predicate Touches(p: nat, start: nat, len: nat) {
    start < p + PAGE_SIZE && p < start + len
  }

  predicate Inside(p: nat, start: nat, len: nat) {
    start <= p && p + PAGE_SIZE <= start + len
  }

  /** A page is available exactly when one entry that the firmware gives type 1 holds all of it and no
      byte of it is in an entry of another type or in the multiboot2 table. */
  lemma AvailableExactly(mb2: seq<Entry>, tabAddr: nat, tabSize: nat, p: nat)
    requires forall e | e in mb2 :: Whole(e)
    requires tabAddr + tabSize + PAGE_SIZE <= WORD_LIMIT
    requires p % PAGE_SIZE == 0
    ensures LoadAll(Documented, mb2, tabAddr, tabSize).Some?
    ensures TypeAt(LoadAll(Documented, mb2, tabAddr, tabSize).value, p) == REGION_TYPE_AVAIL
       <==> && (exists e :: e in mb2 && e.typ == 1 && Inside(p, e.start, e.len))
            && (forall e | e in mb2 && e.typ != 1 :: !Touches(p, e.start, e.len))
            && !Touches(p, tabAddr, tabSize)
  {
    LoadAllTypes(mb2, tabAddr, tabSize);
    RoundingOutwards(p, tabAddr, tabSize);
    StrongestAvailExactly(mb2, p);
  }

  lemma StrongestAvailExactly(mb2: seq<Entry>, p: nat)
    requires forall e | e in mb2 :: Whole(e)
    requires p % PAGE_SIZE == 0
    ensures StrongestType(mb2, REGION_TYPE_NONE, p) == REGION_TYPE_AVAIL
       <==> && (exists e :: e in mb2 && e.typ == 1 && Inside(p, e.start, e.len))
            && (forall e | e in mb2 && e.typ != 1 :: !Touches(p, e.start, e.len))
  {
    StrongestIsMax(mb2, REGION_TYPE_NONE, p);
    forall e | e in mb2
      ensures Covers(e, p) <==> if e.typ == 1 then Inside(p, e.start, e.len) else Touches(p, e.start, e.len)
    {
      RoundedCover(e, p);
    }
  }

  /** An entry of the firmware's type n holds the page or, unless it is available memory, a part of it. */
  ghost predicate Claimed(mb2: seq<Entry>, n: nat, p: nat) {
    exists e :: e in mb2 && e.typ == n && if n == 1 then Inside(p, e.start, e.len) else Touches(p, e.start, e.len)
  }

  /** A part of the page is reserved: type 2, or a number that the specification does not define. */
  ghost predicate ClaimedReserved(mb2: seq<Entry>, p: nat) {
    exists e :: e in mb2 && (e.typ == 0 || e.typ == 2 || e.typ > 4) && Touches(p, e.start, e.len)
  }

  /** The type of every page of the loaded map, from the numbers of the firmware. */
  lemma PageTypesExactly(mb2: seq<Entry>, tabAddr: nat, tabSize: nat, p: nat)
    requires forall e | e in mb2 :: Whole(e)
    requires tabAddr + tabSize + PAGE_SIZE <= WORD_LIMIT
    requires p % PAGE_SIZE == 0
    ensures LoadAll(Documented, mb2, tabAddr, tabSize).Some?
    ensures TypeAt(LoadAll(Documented, mb2, tabAddr, tabSize).value, p)
            == if ClaimedReserved(mb2, p) then REGION_TYPE_RSVD
               else if Claimed(mb2, 4, p) then REGION_TYPE_ACPI_NVS
               else if Claimed(mb2, 3, p) then REGION_TYPE_ACPI_RECLAIM
               else if Touches(p, tabAddr, tabSize) then REGION_TYPE_MULTIBOOT2
               else if Claimed(mb2, 1, p) then REGION_TYPE_AVAIL
               else REGION_TYPE_NONE
  {
    hide Touches, Inside, LoadAll, Ordered, TypeAt, StrongestType, AlignDown, AlignUp64;
    LoadAllTypes(mb2, tabAddr, tabSize);
    RoundingOutwards(p, tabAddr, tabSize);
    StrongestOfNumbers(mb2, p);
  }

  /** The type before the table is marked. */
  lemma StrongestOfNumbers(mb2: seq<Entry>, p: nat)
    requires forall e | e in mb2 :: Whole(e)
    requires p % PAGE_SIZE == 0
    ensures StrongestType(mb2, REGION_TYPE_NONE, p)
            == if ClaimedReserved(mb2, p) then REGION_TYPE_RSVD
               else if Claimed(mb2, 4, p) then REGION_TYPE_ACPI_NVS
               else if Claimed(mb2, 3, p) then REGION_TYPE_ACPI_RECLAIM
               else if Claimed(mb2, 1, p) then REGION_TYPE_AVAIL
               else REGION_TYPE_NONE
  {
    hide Covers, Touches, Inside, StrongestType;
    StrongestIsMax(mb2, REGION_TYPE_NONE, p);
    forall e | e in mb2
      ensures Covers(e, p) <==> if e.typ == 1 then Inside(p, e.start, e.len) else Touches(p, e.start, e.len)
    {
      RoundedCover(e, p);
    }
  }

  lemma RoundingOutwards(p: nat, start: nat, len: nat)
    requires p % PAGE_SIZE == 0 && start + len + PAGE_SIZE <= WORD_LIMIT
    ensures AlignDown(start) <= p < AlignUp64(start + len) <==> Touches(p, start, len)
    ensures AlignDown(start) <= AlignUp64(start + len)
  {
  }

  lemma RoundingInwards(p: nat, start: nat, len: nat)
    requires p % PAGE_SIZE == 0 && start + len + PAGE_SIZE <= WORD_LIMIT
    ensures AlignUp64(start) <= p < AlignDown(start + len) <==> Inside(p, start, len)
  {
  }

  lemma RoundedCover(e: Entry, p: nat)
    requires Whole(e) && p % PAGE_SIZE == 0
    ensures Covers(e, p) <==> if e.typ == 1 then Inside(p, e.start, e.len) else Touches(p, e.start, e.len)
  {
    hide AlignDown, AlignUp64;
    if e.typ == 1 {
      RoundingInwards(p, e.start, e.len);
    } else {
      RoundingOutwards(p, e.start, e.len);
    }
  }
}
