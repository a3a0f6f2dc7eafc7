/** What sequences of calls of the virtual memory manager achieve together. */
module VmmRuns {
  import opened Common
  import Bitmap
  import opened PageTable
  import opened Vmm

  /** Unmapping what was mapped brings back every page's view, every table in its frame and the
      allocator's books, across all table boundaries. */
  method MapThenUnmap(s: AddressSpace, vaddr: nat, paddr: nat, n: nat, flags: set<nat>)
    returns (mapped: Status, unmapped: Status)
    requires s.Valid() && OrdinaryRange(PageOf(vaddr), n) && IsFlags(flags)
    requires paddr + n * PAGE_SIZE <= 0x10_0000_0000_0000
    modifies s`mem, s`tables, s`backed, s`foreign, s.pm`outstanding, s.pm`reserved, s.pm.bm0, s.pm.bm1
    ensures mapped == BadAddress <==> !(GoodAddress(vaddr) && PageAligned(paddr))
    ensures Explained(mapped, old(s.mem), old(s.tables), PageOf(vaddr), n)
    ensures mapped != Ok ==> s.Blames(mapped)
    ensures mapped == Ok ==> unmapped == Ok && s.Valid()
    ensures mapped == Ok ==> SameView(old(s.mem), old(s.tables), s.mem, s.tables) && s.tables == old(s.tables)
    ensures mapped == Ok ==>
      && s.pm.outstanding == old(s.pm.outstanding) && s.backed == old(s.backed)
      && s.foreign == old(s.foreign)
  {
    hide AddressSpace.Core, RangeMapped, RangeFreed, Entry, Walk, Tidy, Freeable, BackedOutside, PageOf, OrdinaryRange,
         SameView, Extends, NoneBacked, FramesIn, Explained, GoodAddress, AddressSpace.Blames;
    ghost var mem0, tables0, backed0, foreign0, out0 := s.mem, s.tables, s.backed, s.foreign, s.pm.outstanding;
    OwnedOf(s);
    LeavesOf(s);
    unmapped := Ok;
    mapped := s.VmmMapTo(vaddr, paddr, n, flags);
    if mapped == Ok {
      ghost var mem1, tables1 := s.mem, s.tables;
      ghost var req := ToFrames(paddr / PAGE_SIZE, flags);
      MappedIsFreeable(mem0, tables0, mem1, tables1, PageOf(vaddr), n, req);
      UnmappedNotBacked(mem0, tables0, mem1, tables1, backed0, PageOf(vaddr), n, req);
      NoFramesIn(backed0, PageOf(vaddr), n);
      unmapped := s.VmmUnmap(vaddr, n);
      MappedThenFreed(mem0, tables0, mem1, tables1, s.mem, s.tables, PageOf(vaddr), n, req);
      SameViewSameTables(mem0, tables0, s.mem, s.tables);
      BothWithin(tables0, tables1, s.tables);
      NothingBacked(backed0, s.backed, PageOf(vaddr), n);
      OwnedOf(s);
    }
  }

  lemma FramesExplained(mem: Memory, tables: Tables, first: nat, n: nat)
    ensures Explained(OutOfFrames, mem, tables, first, n) && Explained(ShiftTooFar, mem, tables, first, n)
    ensures Explained(Ok, mem, tables, first, n)
  {
  }

  lemma OwnedOf(s: AddressSpace)
    requires s.Valid()
    ensures s.pm.outstanding == s.foreign + s.tables.Values + s.backed.Values
  {
  }

  lemma LeavesOf(s: AddressSpace)
    requires s.Valid()
    ensures Leaves(s.mem, s.tables, s.backed)
  {
  }

  lemma MappedIsFreeable(mem: Memory, tables: Tables, mem1: Memory, tables1: Tables, first: nat, n: nat, req: Request)
    requires RangeMapped(mem, tables, mem1, tables1, first, n, req) && OrdinaryRange(first, n)
    ensures Freeable(mem1, tables1, first, n, false)
  {
  }

  lemma MappedThenFreed(mem: Memory, tables: Tables, mem1: Memory, tables1: Tables, mem2: Memory, tables2: Tables,
                        first: nat, n: nat, req: Request)
    requires RangeMapped(mem, tables, mem1, tables1, first, n, req)
        && RangeFreed(mem1, tables1, mem2, tables2, first, n)
    ensures SameView(mem, tables, mem2, tables2)
    ensures forall pn :: Ordinary(pn) ==> AgreeAt(mem, tables, mem2, tables2, pn)
  {
    forall pn: nat | Ordinary(pn)
      ensures AgreeAt(mem, tables, mem2, tables2, pn)
    {
      if !(first <= pn < first + n) {
        assert AgreeAt(mem, tables, mem1, tables1, pn) && AgreeAt(mem1, tables1, mem2, tables2, pn);
      }
    }
  }

  lemma BothWithin(a: Tables, b: Tables, c: Tables)
    requires Extends(a, b) && Extends(c, b) && a.Keys == c.Keys
    ensures a == c
  {
  }

  /** Pages with a given leaf now and none before are not among the demand-backed ones. */
  lemma UnmappedNotBacked(mem: Memory, tables: Tables, mem1: Memory, tables1: Tables, backed: map<nat, nat>,
                          first: nat, n: nat, req: Request)
    requires RangeMapped(mem, tables, mem1, tables1, first, n, req)
    requires Leaves(mem, tables, backed)
    ensures NoneBacked(backed, first, n)
  {
  }

  lemma NothingBacked(b: map<nat, nat>, b1: map<nat, nat>, first: nat, n: nat)
    requires BackedOutside(b, b1, first, n) && NoneBacked(b, first, n)
    ensures b == b1
  {
  }

  // ----- demand paging -----

  /** Page q of the range after the pages in `done` were accessed: those are present on their
      own frame with the requested flags, the others still wait. */
  ghost predicate Touched(mem1: Memory, tables1: Tables, backed1: map<nat, nat>, q: nat, offset: nat, flags: set<nat>,
                          done: set<nat>)
  {
    if offset in done then
      && q in backed1
      && Entry(mem1, tables1, q) == Pte(backed1[q], flags + {PRESENT} - {TO_ALLOC})
      && Walk(mem1, tables1, q) == Page(1, Entry(mem1, tables1, q))
    else
      && q !in backed1
      && Entry(mem1, tables1, q) == Pte(0, flags + {TO_ALLOC} - {PRESENT}) && Walk(mem1, tables1, q) == Fault
  }

  /** The n pages from `first` are the only ones that differ from the start, each Touched;
      newly backed pages have frames that nobody held at the start. */
  ghost predicate DemandPaged(mem: Memory, tables: Tables, backed: map<nat, nat>, out: set<nat>,
                              mem1: Memory, tables1: Tables, backed1: map<nat, nat>,
                              first: nat, n: nat, flags: set<nat>, done: set<nat>)
  {
    && (forall q: nat :: Ordinary(q) ==>
          if first <= q < first + n then Touched(mem1, tables1, backed1, q, q - first, flags, done)
          else AgreeAt(mem, tables, mem1, tables1, q))
    && (forall q :: q in backed ==> q in backed1 && backed1[q] == backed[q])
    && (forall q :: q in backed1 && q !in backed ==> first <= q < first + n && backed1[q] !in out)
  }

  lemma MappedOnDemand(mem: Memory, tables: Tables, backed: map<nat, nat>, out: set<nat>,
                       mem1: Memory, tables1: Tables, first: nat, n: nat, flags: set<nat>)
    requires RangeMapped(mem, tables, mem1, tables1, first, n, OnDemand(flags)) && Leaves(mem, tables, backed)
    ensures DemandPaged(mem, tables, backed, out, mem1, tables1, backed, first, n, flags, {})
  {
  }

  lemma TouchStep(mem: Memory, tables: Tables, backed: map<nat, nat>, out: set<nat>,
                  mem1: Memory, mem2: Memory, tables1: Tables, backed1: map<nat, nat>, backed2: map<nat, nat>,
                  out1: set<nat>, first: nat, n: nat, flags: set<nat>, done: set<nat>, k: nat)
    requires DemandPaged(mem, tables, backed, out, mem1, tables1, backed1, first, n, flags, done)
    requires FaultedIn(mem1, mem2, tables1, backed1, backed2, first + k, out1) && out <= out1
    requires k < n && k !in done && Ordinary(first + k)
    ensures DemandPaged(mem, tables, backed, out, mem2, tables1, backed2, first, n, flags, done + {k})
  {
    hide Entry, Walk;
    forall q: nat | Ordinary(q)
      ensures if first <= q < first + n then Touched(mem2, tables1, backed2, q, q - first, flags, done + {k})
              else AgreeAt(mem, tables, mem2, tables1, q)
    {
      if q != first + k {
        assert AgreeAt(mem1, tables1, mem2, tables1, q);
      } else {
        assert flags + {TO_ALLOC} - {PRESENT} + {PRESENT} - {TO_ALLOC} == flags + {PRESENT} - {TO_ALLOC};
      }
    }
  }

  lemma StillWaiting(mem: Memory, tables: Tables, backed: map<nat, nat>, out: set<nat>,
                     mem1: Memory, tables1: Tables, backed1: map<nat, nat>,
                     first: nat, n: nat, flags: set<nat>, done: set<nat>, k: nat)
    requires DemandPaged(mem, tables, backed, out, mem1, tables1, backed1, first, n, flags, done)
    requires k < n && k !in done && Ordinary(first + k)
    ensures IsPending(Entry(mem1, tables1, first + k)) && Walk(mem1, tables1, first + k) == Fault
  {
  }

  /** Mapping n pages on demand and accessing some of them, in any order: every accessed page is
      present, on a frame of its own that was free before, with the requested flags. */
  method MapAndTouch(s: AddressSpace, vaddr: nat, n: nat, flags: set<nat>, order: seq<nat>) returns (st: Status)
    requires s.Valid() && OrdinaryRange(PageOf(vaddr), n) && IsFlags(flags)
    requires forall i :: 0 <= i < |order| ==> order[i] < n && Canonical(vaddr + order[i] * PAGE_SIZE)
    requires forall i, j :: 0 <= i < j < |order| ==> order[i] != order[j]
    modifies s`mem, s`tables, s`backed, s.pm`outstanding, s.pm.bm0, s.pm.bm1
    ensures st == Ok ==> s.Valid()
    ensures st == Ok ==>
      DemandPaged(old(s.mem), old(s.tables), old(s.backed), old(s.pm.outstanding), s.mem, s.tables, s.backed,
                  PageOf(vaddr), n, flags, Elements(order))
    ensures (st == BadAddress <==> !GoodAddress(vaddr)) && Explained(st, old(s.mem), old(s.tables), PageOf(vaddr), n)
    ensures s.Blames(st)
  {
    hide AddressSpace.Core, AddressSpace.Valid, RangeMapped, DemandPaged, Entry, Walk, PageOf, FaultedIn, Ordinary,
         Extends, Explained, AddressSpace.Blames, GoodAddress, Canonical, IsFlags;
    FramesExplained(s.mem, s.tables, PageOf(vaddr), n);
    ghost var mem0, tables0, backed0, foreign0, out0 := s.mem, s.tables, s.backed, s.foreign, s.pm.outstanding;
    LeavesOf(s);
    OwnedOf(s);
    st := s.VmmMap(vaddr, n, flags);
    if st != Ok {
      return;
    }
    ghost var first, tables1, done: set<nat> := PageOf(vaddr), s.tables, {};
    MappedOnDemand(mem0, tables0, backed0, out0, s.mem, s.tables, first, n, flags);
    var i := 0;
    while i < |order|
      invariant 0 <= i <= |order| && st == Ok
      invariant s.Valid() && s.tables == tables1 && s.foreign == foreign0
      invariant forall k :: k in done <==> k in order[..i]
      invariant DemandPaged(mem0, tables0, backed0, out0, s.mem, tables1, s.backed, first, n, flags, done)
    {
      ghost var mem1, backed1, out1 := s.mem, s.backed, s.pm.outstanding;
      ghost var k := order[i];
      assert Ordinary(first + k);
      PageAt(vaddr, order[i]);
      StillWaiting(mem0, tables0, backed0, out0, mem1, tables1, backed1, first, n, flags, done, k);
      OwnedOf(s);
      OutstandingGrows(mem0, tables0, backed0, foreign0, out0, mem1, tables1, backed1, out1, first, n, flags, done);
      st := s.PageFault(vaddr + order[i] * PAGE_SIZE, FaultCode(false, false, false));
      if st != Ok {
        return;
      }
      TouchStep(mem0, tables0, backed0, out0, mem1, s.mem, tables1, backed1, s.backed, out1, first, n, flags, done, k);
      done := done + {k};
      i := i + 1;
    }
    assert done == Elements(order);
    s.OkBlamesNobody();
  }

  ghost function Elements(s: seq<nat>): set<nat> {
    set k | k in s
  }

  lemma PageAt(vaddr: nat, k: nat)
    requires Ordinary(PageOf(vaddr) + k)
    ensures PageOf(vaddr + k * PAGE_SIZE) == PageOf(vaddr) + k
  {
    assert (vaddr + k * 4096) / 4096 == vaddr / 4096 + k;
  }

  lemma OutstandingGrows(mem: Memory, tables: Tables, backed: map<nat, nat>, foreign: set<nat>, out: set<nat>,
                         mem1: Memory, tables1: Tables, backed1: map<nat, nat>, out1: set<nat>,
                         first: nat, n: nat, flags: set<nat>, done: set<nat>)
    requires out == foreign + tables.Values + backed.Values && out1 == foreign + tables1.Values + backed1.Values
    requires Extends(tables, tables1)
    requires DemandPaged(mem, tables, backed, out, mem1, tables1, backed1, first, n, flags, done)
    ensures out <= out1
  {
    hide Entry, Walk;
    forall f | f in tables.Values ensures f in tables1.Values {
      var m :| m in tables && tables[m] == f;
      assert m in tables1 && tables1[m] == f;
    }
    forall f | f in backed.Values ensures f in backed1.Values {
      var q :| q in backed && backed[q] == f;
      assert q in backed1 && backed1[q] == f;
    }
  }

  // ----- every run of calls refines a flat map -----

  datatype Call =
    | Map(vaddr: nat, n: nat, flags: set<nat>)
    | MapTo(vaddr: nat, paddr: nat, n: nat, flags: set<nat>)
    | Unmap(vaddr: nat, n: nat)
    | Free(vaddr: nat, n: nat)
    | Touch(vaddr: nat)
    | Sbrk(increment: int)

  /** What the callers of the kernel's interface respect: addresses outside the self-map, flags
      outside the address field; and what the hardware and the C types allow. */
  ghost predicate Legal(call: Call) {
    match call
    case Map(vaddr, n, flags) => OrdinaryRange(PageOf(vaddr), n) && IsFlags(flags)
    case MapTo(vaddr, paddr, n, flags) =>
      OrdinaryRange(PageOf(vaddr), n) && IsFlags(flags) && paddr + n * PAGE_SIZE <= 0x10_0000_0000_0000
    case Unmap(vaddr, n) => OrdinaryRange(PageOf(vaddr), n)
    case Free(vaddr, n) => OrdinaryRange(PageOf(vaddr), n)
    case Touch(vaddr) => Ordinary(PageOf(vaddr)) && Canonical(vaddr)
    case Sbrk(increment) => IsIntptr(increment)
  }

  /** A mapped page as its user sees it: waiting for its first access, provided with some frame of
      its own, or mapped to a given frame; each with the flags of its entry. */
  datatype Page = Waiting(flags: set<nat>) | Provided(flags: set<nat>) | Given(frame: nat, flags: set<nat>)

  /** An address space without page tables: the mapped pages, the break, and the frames that the client
      itself holds and can map and free. */
  datatype Flat = Flat(pages: map<nat, Page>, brk: nat, own: set<nat>)

  function PagesFrom(first: nat, n: nat): (s: set<nat>)
    ensures forall q :: q in s <==> first <= q < first + n
  {
    if n == 0 then {} else PagesFrom(first, n - 1) + {first + n - 1}
  }

  function Requested(req: Request, i: nat): Page {
    var e := Leaf(req, i);
    match req
    case ToFrames(_, _) => Given(e.frame, e.flags)
    case OnDemand(_) => Waiting(e.flags)
  }

  function WithPages(pages: map<nat, Page>, first: nat, n: nat, req: Request): map<nat, Page> {
    pages + map q | q in PagesFrom(first, n) && q >= first :: Requested(req, q - first)
  }

  function Accessed(pages: map<nat, Page>, q: nat): map<nat, Page> {
    if q in pages && pages[q].Waiting? then pages[q := Provided(pages[q].flags + {PRESENT} - {TO_ALLOC})] else pages
  }

  predicate ShowsGiven(pages: map<nat, Page>, first: nat, n: nat, q: nat) {
    q in PagesFrom(first, n) && q in pages && pages[q].Given?
  }

  /** The frames of the pages in a range that the client mapped to given ones. */
  function GivenFrames(pages: map<nat, Page>, first: nat, n: nat): set<nat> {
    set q | q in PagesFrom(first, n) && ShowsGiven(pages, first, n, q) :: pages[q].frame
  }

  /** A client frees no given frames but its own and does not shrink the heap below its start; such
      calls are not made. */
  predicate Made(f: Flat, call: Call) {
    match call
    case Free(vaddr, n) => GivenFrames(f.pages, PageOf(vaddr), n) <= f.own
    case Sbrk(increment) =>
      && f.brk + increment >= KRNL_HEAP_START
      && (increment >= 0 || GivenFrames(f.pages, PageOf(f.brk + increment), -increment / PAGE_SIZE) <= f.own)
    case _ => true
  }

  /** A range is freed: its pages are gone, and the client's frames with them. */
  function WithoutPages(f: Flat, first: nat, n: nat): Flat {
    f.(pages := f.pages - PagesFrom(first, n), own := f.own - GivenFrames(f.pages, first, n))
  }

  /** What a call that succeeds does to the flat address space. */
  function After(f: Flat, call: Call): Flat {
    if !Made(f, call) then f
    else
      match call
      case Map(vaddr, n, flags) => f.(pages := WithPages(f.pages, PageOf(vaddr), n, OnDemand(flags)))
      case MapTo(vaddr, paddr, n, flags) =>
        f.(pages := WithPages(f.pages, PageOf(vaddr), n, ToFrames(paddr / PAGE_SIZE, flags)))
      case Unmap(vaddr, n) => f.(pages := f.pages - PagesFrom(PageOf(vaddr), n))
      case Free(vaddr, n) => WithoutPages(f, PageOf(vaddr), n)
      case Touch(vaddr) => f.(pages := Accessed(f.pages, PageOf(vaddr)))
      case Sbrk(increment) =>
        if increment > 0 then
          f.(pages := WithPages(f.pages, PageOf(f.brk), increment / PAGE_SIZE, OnDemand({WRITABLE})),
             brk := f.brk + increment)
        else
          WithoutPages(f, PageOf(f.brk + increment), -increment / PAGE_SIZE).(brk := f.brk + increment)
  }

  /** The page at q of a flat map. */
  function PageIn(f: Flat, q: nat): Option<Page> {
    if q in f.pages then Some(f.pages[q]) else None
  }

  /** What vmm_map does to every page: n pages wait, with the requested flags but not present. */
  lemma AfterMap(f: Flat, vaddr: nat, n: nat, flags: set<nat>, q: nat)
    ensures var f1 := After(f, Map(vaddr, n, flags));
            && f1.brk == f.brk && f1.own == f.own
            && PageIn(f1, q) == if PageOf(vaddr) <= q < PageOf(vaddr) + n
                                then Some(Waiting(flags + {TO_ALLOC} - {PRESENT})) else PageIn(f, q)
  {
    hide PageOf;
  }

  /** vmm_map_to: n pages show the given frames in a row, with the requested flags and present. */
  lemma AfterMapTo(f: Flat, vaddr: nat, paddr: nat, n: nat, flags: set<nat>, q: nat)
    ensures var f1 := After(f, MapTo(vaddr, paddr, n, flags));
            && f1.brk == f.brk && f1.own == f.own
            && PageIn(f1, q) == if PageOf(vaddr) <= q < PageOf(vaddr) + n
                                then Some(Given(paddr / PAGE_SIZE + (q - PageOf(vaddr)), flags + {PRESENT}))
                                else PageIn(f, q)
  {
    hide PageOf;
  }

  /** An access gives a waiting page a frame: it keeps its flags, and is present instead of to be allocated. */
  lemma AfterTouch(f: Flat, vaddr: nat, q: nat)
    ensures var f1 := After(f, Touch(vaddr));
            && f1.brk == f.brk && f1.own == f.own
            && PageIn(f1, q) == if q == PageOf(vaddr) && PageIn(f, q).Some? && PageIn(f, q).value.Waiting?
                                then Some(Provided(PageIn(f, q).value.flags + {PRESENT} - {TO_ALLOC}))
                                else PageIn(f, q)
  {
    hide PageOf;
  }

  /** vmm_unmap: n pages are gone; the client keeps its frames. */
  lemma AfterUnmap(f: Flat, vaddr: nat, n: nat, q: nat)
    ensures var f1 := After(f, Unmap(vaddr, n));
            && f1.brk == f.brk && f1.own == f.own
            && PageIn(f1, q) == if PageOf(vaddr) <= q < PageOf(vaddr) + n then None else PageIn(f, q)
  {
    hide PageOf;
  }

  /** Some page of the range shows the frame at the client's will. */
  ghost predicate GivenAt(f: Flat, first: nat, n: nat, frame: nat) {
    exists q: nat :: first <= q < first + n && PageIn(f, q).Some? && PageIn(f, q).value.Given?
                     && PageIn(f, q).value.frame == frame
  }

  /** The call is made, when the client owns every given frame that it would free. */
  ghost predicate OwnsGiven(f: Flat, first: nat, n: nat) {
    forall frame :: GivenAt(f, first, n, frame) ==> frame in f.own
  }

  lemma GivenFramesAre(f: Flat, first: nat, n: nat)
    ensures forall frame :: frame in GivenFrames(f.pages, first, n) <==> GivenAt(f, first, n, frame)
    ensures OwnsGiven(f, first, n) <==> GivenFrames(f.pages, first, n) <= f.own
  {
    forall frame
      ensures frame in GivenFrames(f.pages, first, n) <==> GivenAt(f, first, n, frame)
    {
      if GivenAt(f, first, n, frame) {
        var q: nat :| first <= q < first + n && PageIn(f, q).Some? && PageIn(f, q).value.Given?
                      && PageIn(f, q).value.frame == frame;
        assert ShowsGiven(f.pages, first, n, q) && f.pages[q].frame == frame;
      }
      if frame in GivenFrames(f.pages, first, n) {
        var q :| q in PagesFrom(first, n) && ShowsGiven(f.pages, first, n, q) && f.pages[q].frame == frame;
        assert PageIn(f, q).Some?;
      }
    }
  }

  /** vmm_free: n pages are gone, and the given frames behind them are the client's no longer. */
  lemma AfterFree(f: Flat, vaddr: nat, n: nat, q: nat, frame: nat)
    requires OwnsGiven(f, PageOf(vaddr), n)
    ensures var f1 := After(f, Free(vaddr, n));
            && f1.brk == f.brk
            && PageIn(f1, q) == (if PageOf(vaddr) <= q < PageOf(vaddr) + n then None else PageIn(f, q))
            && (frame in f1.own <==> frame in f.own && !GivenAt(f, PageOf(vaddr), n, frame))
  {
    hide PageOf, GivenAt, GivenFrames, OwnsGiven;
    GivenFramesAre(f, PageOf(vaddr), n);
  }

  /** ksbrk: a positive increment adds writable pages that wait, a negative one frees the last pages. */
  lemma AfterSbrk(f: Flat, increment: int, q: nat, frame: nat)
    requires f.brk + increment >= KRNL_HEAP_START
    requires increment < 0 ==> OwnsGiven(f, PageOf(f.brk + increment), -increment / PAGE_SIZE)
    ensures var f1 := After(f, Sbrk(increment));
            && f1.brk == f.brk + increment
            && (increment >= 0 ==>
                  f1.own == f.own
                  && PageIn(f1, q) == if PageOf(f.brk) <= q < PageOf(f.brk) + increment / PAGE_SIZE
                                      then Some(Waiting({WRITABLE, TO_ALLOC})) else PageIn(f, q))
            && (increment < 0 ==>
                  var first, n := PageOf(f.brk + increment), -increment / PAGE_SIZE;
                  && (frame in f1.own <==> frame in f.own && !GivenAt(f, first, n, frame))
                  && PageIn(f1, q) == if first <= q < first + n then None else PageIn(f, q))
  {
    hide PageOf, GivenAt, GivenFrames, OwnsGiven;
    assert {WRITABLE} + {TO_ALLOC} - {PRESENT} == {WRITABLE, TO_ALLOC};
    if increment < 0 {
      GivenFramesAre(f, PageOf(f.brk + increment), -increment / PAGE_SIZE);
    } else {
      NothingGiven(f, PageOf(f.brk + increment));
    }
  }

  lemma NothingGiven(f: Flat, first: nat)
    ensures PagesFrom(first, 0) == {} && GivenFrames(f.pages, first, 0) == {}
  {
  }

  function Replay(f: Flat, calls: seq<Call>): Flat {
    if calls == [] then f else After(Replay(f, calls[..|calls| - 1]), calls[|calls| - 1])
  }

  /** Pages of the range that are mapped, that are missing, that still wait. */
  ghost predicate AnyMapped(pages: map<nat, Page>, first: nat, n: nat) {
    exists q: nat :: first <= q < first + n && q in pages
  }

  ghost predicate AnyMissing(pages: map<nat, Page>, first: nat, n: nat) {
    exists q: nat :: first <= q < first + n && q !in pages
  }

  ghost predicate AnyWaiting(pages: map<nat, Page>, first: nat, n: nat) {
    exists q: nat :: first <= q < first + n && q in pages && pages[q].Waiting?
  }

  /** Two pages of the range show one given frame. */
  ghost predicate AnyTwice(pages: map<nat, Page>, first: nat, n: nat) {
    exists p: nat, q: nat ::
      && ShowsGiven(pages, first, n, p) && ShowsGiven(pages, first, n, q) && p != q
      && pages[p].frame == pages[q].frame
  }

  /** vmm_free panics at a page that is missing or waits, and at a frame it has just freed. */
  ghost predicate Unfreeable(pages: map<nat, Page>, first: nat, n: nat) {
    AnyMissing(pages, first, n) || AnyWaiting(pages, first, n) || AnyTwice(pages, first, n)
  }

  /** The calls that end in a panic, whatever the page tables look like. */
  ghost predicate Panics(f: Flat, call: Call) {
    Made(f, call) &&
    match call
    case Map(vaddr, n, _) => !GoodAddress(vaddr) || AnyMapped(f.pages, PageOf(vaddr), n)
    case MapTo(vaddr, paddr, n, _) =>
      !(GoodAddress(vaddr) && PageAligned(paddr)) || AnyMapped(f.pages, PageOf(vaddr), n)
    case Unmap(vaddr, n) => !GoodAddress(vaddr) || AnyMissing(f.pages, PageOf(vaddr), n)
    case Free(vaddr, n) => !GoodAddress(vaddr) || Unfreeable(f.pages, PageOf(vaddr), n)
    case Touch(vaddr) => PageOf(vaddr) !in f.pages
    case Sbrk(increment) =>
      || !PassesLimit(f.brk, increment)
      || (if increment > 0 then AnyMapped(f.pages, PageOf(f.brk), increment / PAGE_SIZE)
          else Unfreeable(f.pages, PageOf(f.brk + increment), -increment / PAGE_SIZE))
  }

  /** The growth that ksbrk's check lets through because its sum wraps around; what the code then
      maps is not described. */
  predicate Overruns(f: Flat, call: Call) {
    call.Sbrk? && PassesLimit(f.brk, call.increment) && f.brk + call.increment > KRNL_HEAP_END
  }

  ghost predicate Stops(f: Flat, call: Call) {
    Panics(f, call) || Overruns(f, call)
  }

  /** No call stops the run. */
  ghost predicate NothingStops(f: Flat, calls: seq<Call>) {
    forall k :: 0 <= k < |calls| ==> !Stops(Replay(f, calls[..k]), calls[k])
  }

  // ----- frames that unmapping leaks -----

  /** The pages of a range that were provided with a frame. */
  function ProvidedIn(pages: map<nat, Page>, first: nat, n: nat): (s: set<nat>)
    ensures forall q :: q in s <==> first <= q < first + n && q in pages && pages[q].Provided?
  {
    set q | q in PagesFrom(first, n) && q in pages && pages[q].Provided?
  }

  /** How many frames a call takes from their pages without giving them back. */
  function LeakedBy(f: Flat, call: Call): nat {
    match call
    case Unmap(vaddr, n) => |ProvidedIn(f.pages, PageOf(vaddr), n)|
    case _ => 0
  }

  function Leaked(f: Flat, calls: seq<Call>): nat {
    if calls == [] then 0
    else
      var earlier := calls[..|calls| - 1];
      Leaked(f, earlier) + LeakedBy(Replay(f, earlier), calls[|calls| - 1])
  }

  /** Nothing leaks exactly when no unmapping covers a page that was provided with a frame. */
  lemma {:induction false} NothingLeakedExactly(f: Flat, calls: seq<Call>)
    ensures Leaked(f, calls) == 0
       <==> forall k :: 0 <= k < |calls| && calls[k].Unmap? ==>
              ProvidedIn(Replay(f, calls[..k]).pages, PageOf(calls[k].vaddr), calls[k].n) == {}
  {
    hide ProvidedIn, PageOf, Replay;
    if calls != [] {
      var last := |calls| - 1;
      var earlier := calls[..last];
      NothingLeakedExactly(f, earlier);
      assert forall k :: 0 <= k <= last ==> earlier[..k] == calls[..k];
      assert forall k :: 0 <= k < last ==> earlier[k] == calls[k];
      assert calls[..last] == earlier;
    }
  }

  lemma OneWaiting(q: nat)
    ensures WithPages(map[], q, 1, OnDemand({})) == map[q := Waiting({TO_ALLOC})]
  {
    assert PagesFrom(q, 1) == {q};
    assert Leaf(OnDemand({}), 0).flags == {TO_ALLOC};
  }

  function LeakingCalls(vaddr: nat): seq<Call> {
    [Map(vaddr, 1, {}), Touch(vaddr), Unmap(vaddr, 1)]
  }

  lemma LeakingReplay(vaddr: nat, brk: nat, f: Flat, calls: seq<Call>)
    requires f == Flat(map[], brk, {}) && calls == LeakingCalls(vaddr)
    ensures Replay(f, calls[..0]) == f
    ensures Replay(f, calls[..1]) == Flat(map[PageOf(vaddr) := Waiting({TO_ALLOC})], brk, {})
    ensures Replay(f, calls[..2]) == Flat(map[PageOf(vaddr) := Provided({PRESENT})], brk, {})
  {
    hide PageOf, WithPages, Replay;
    var q := PageOf(vaddr);
    RunStart(f);
    assert calls[..0] == [];
    RunNext(f, calls, 0);
    RunNext(f, calls, 1);
    OneWaiting(q);
    assert Accessed(map[q := Waiting({TO_ALLOC})], q) == map[q := Provided({PRESENT})] by {
      assert {TO_ALLOC} + {PRESENT} - {TO_ALLOC} == {PRESENT};
    }
  }

  /** Mapping a page on demand, accessing it and unmapping it leaks one frame, and nothing stops the
      three calls. */
  lemma UnmapLeaks(vaddr: nat, brk: nat)
    ensures Leaked(Flat(map[], brk, {}), LeakingCalls(vaddr)) == 1
    ensures GoodAddress(vaddr) ==> NothingStops(Flat(map[], brk, {}), LeakingCalls(vaddr))
  {
    hide PageOf, GoodAddress, Replay, Leaked, After;
    var q, f, calls := PageOf(vaddr), Flat(map[], brk, {}), LeakingCalls(vaddr);
    LeakingReplay(vaddr, brk, f, calls);
    RunStart(f);
    RunNext(f, calls, 0);
    RunNext(f, calls, 1);
    RunNext(f, calls, 2);
    assert calls[..3] == calls && calls[..0] == [];
    assert ProvidedIn(map[q := Provided({PRESENT})], q, 1) == {q};
  }

  /** The frames behind the provided pages of a range are as many as the pages, and nobody else's. */
  lemma {:induction false} FramesCounted(out: set<nat>, foreign: set<nat>, tables: Tables, backed: map<nat, nat>,
                                         mem: Memory, pages: map<nat, Page>, first: nat, n: nat, rest: set<nat>)
    requires Owned(out, foreign, tables, backed) && Shows(mem, tables, backed, pages) && OrdinaryRange(first, n)
    requires rest <= foreign
    ensures |rest + FramesIn(backed, first, n)| == |rest| + |ProvidedIn(pages, first, n)|
  {
    hide Entry, Walk, ProvidedIn, FramesIn, Owned, Shows, BackedOutside, Ordinary;
    if n == 0 {
      NoFramesIn(backed, first, 0);
      assert ProvidedIn(pages, first, 0) == {} && rest + {} == rest;
    } else {
      var q := first + (n - 1);
      FramesCounted(out, foreign, tables, backed, mem, pages, first, n - 1, rest);
      FramesInNext(backed, first, n - 1);
      BackedIsProvided(mem, tables, backed, pages, q);
      NotAmongFrames(out, foreign, tables, backed, first, n - 1);
      if q in backed {
        CountOneMore(rest, FramesIn(backed, first, n - 1), ProvidedIn(pages, first, n - 1), backed[q], q);
        assert ProvidedIn(pages, first, n) == ProvidedIn(pages, first, n - 1) + {q};
      } else {
        assert FramesIn(backed, first, n - 1) + {} == FramesIn(backed, first, n - 1);
        assert ProvidedIn(pages, first, n) == ProvidedIn(pages, first, n - 1);
      }
    }
  }

  lemma FramesInNext(b: map<nat, nat>, first: nat, i: nat)
    ensures FramesIn(b, first, i + 1) == FramesIn(b, first, i) + if first + i in b then {b[first + i]} else {}
  {
    forall f
      ensures f in FramesIn(b, first, i + 1) <==> f in FramesIn(b, first, i) || (first + i in b && f == b[first + i])
    {
    }
  }

  lemma CountOneMore(rest: set<nat>, a: set<nat>, b: set<nat>, x: nat, q: nat)
    requires |rest + a| == |rest| + |b| && x !in rest + a && q !in b
    ensures |rest + (a + {x})| == |rest| + |b + {q}|
  {
    assert rest + (a + {x}) == (rest + a) + {x};
  }

  lemma BackedIsProvided(mem: Memory, tables: Tables, backed: map<nat, nat>, pages: map<nat, Page>, q: nat)
    requires Shows(mem, tables, backed, pages) && Ordinary(q)
    ensures q in backed <==> q in pages && pages[q].Provided?
  {
    hide Entry, Walk;
    assert ShowsPage(mem, tables, backed, pages, q);
  }

  lemma NotAmongFrames(out: set<nat>, foreign: set<nat>, tables: Tables, backed: map<nat, nat>, first: nat, n: nat)
    requires Owned(out, foreign, tables, backed)
    ensures first + n in backed ==> backed[first + n] !in foreign + FramesIn(backed, first, n)
  {
    if first + n in backed {
      assert backed[first + n] in backed.Values;
    }
  }

  /** The page tables say about page q what the flat map says, and so does the hardware's walk. */
  ghost predicate ShowsPage(mem: Memory, tables: Tables, backed: map<nat, nat>, pages: map<nat, Page>, q: nat) {
    var e := Entry(mem, tables, q);
    && Walk(mem, tables, q) == Result(1, e)
    && (q in backed <==> q in pages && pages[q].Provided?)
    && (if q !in pages then e == UNUSED
        else
          match pages[q]
          case Waiting(flags) => e == Pte(0, flags) && IsPending(e)
          case Provided(flags) => q in backed && e == Pte(backed[q], flags) && Present(e)
          case Given(frame, flags) => e == Pte(frame, flags) && Present(e))
  }

  ghost predicate Shows(mem: Memory, tables: Tables, backed: map<nat, nat>, pages: map<nat, Page>) {
    forall q: nat :: Ordinary(q) ==> ShowsPage(mem, tables, backed, pages, q)
  }

  /** What vmm_translate answers in terms of the flat map. */
  lemma ShownTranslation(mem: Memory, tables: Tables, backed: map<nat, nat>, pages: map<nat, Page>, vaddr: nat)
    requires Shows(mem, tables, backed, pages) && Ordinary(PageOf(vaddr))
    ensures var q := PageOf(vaddr);
            Translation(Walk(mem, tables, q), vaddr)
            == if q !in pages || pages[q].Waiting? then None
               else if pages[q].Given? then Some(pages[q].frame * PAGE_SIZE + vaddr % PAGE_SIZE)
               else if q in backed then Some(backed[q] * PAGE_SIZE + vaddr % PAGE_SIZE)
               else None
  {
    hide Entry, Walk, PageOf;
    assert ShowsPage(mem, tables, backed, pages, PageOf(vaddr));
  }

  /** What the hardware lets be written, in terms of the flat map: the pages that have a frame and the flag. */
  lemma ShownWritable(mem: Memory, tables: Tables, backed: map<nat, nat>, pages: map<nat, Page>, q: nat)
    requires Shows(mem, tables, backed, pages) && Linked(mem, tables) && Ordinary(q)
    ensures Writable(mem, tables, q) <==> q in pages && !pages[q].Waiting? && WRITABLE in pages[q].flags
  {
    hide Entry, Walk, Writable, Linked;
    assert ShowsPage(mem, tables, backed, pages, q);
    WritableIsLeaf(mem, tables, q);
  }

  /** A range is mapped only where the flat map is empty; where it fails for another reason than
      frames, the flat map has a page. */
  lemma MapPanics(mem: Memory, tables: Tables, backed: map<nat, nat>, pages: map<nat, Page>,
                  st: Status, mem1: Memory, tables1: Tables, first: nat, n: nat, req: Request)
    requires Shows(mem, tables, backed, pages) && OrdinaryRange(first, n) && Explained(st, mem, tables, first, n)
    requires st == Ok ==> RangeMapped(mem, tables, mem1, tables1, first, n, req)
    ensures st == Ok ==> !AnyMapped(pages, first, n)
    ensures st == InUse || st == HugeOnPath ==> AnyMapped(pages, first, n)
  {
    hide Entry, Walk;
    forall q: nat | first <= q < first + n
      ensures ShowsPage(mem, tables, backed, pages, q)
    {
      assert Ordinary(q);
    }
    if st == InUse {
      var q: nat :| first <= q < first + n && Entry(mem, tables, q) != UNUSED;
      assert ShowsPage(mem, tables, backed, pages, q);
    }
    if st == HugeOnPath {
      var q: nat :| first <= q < first + n && IsHugePage(Walk(mem, tables, q));
      assert ShowsPage(mem, tables, backed, pages, q);
    }
    if st == Ok {
      forall q: nat | first <= q < first + n
        ensures q !in pages
      {
        assert Ordinary(q) && ShowsPage(mem, tables, backed, pages, q);
      }
    }
  }

  lemma FreePanics(mem: Memory, tables: Tables, backed: map<nat, nat>, pages: map<nat, Page>, first: nat, n: nat,
                   doFree: bool)
    requires Shows(mem, tables, backed, pages) && OrdinaryRange(first, n)
    ensures Freeable(mem, tables, first, n, doFree)
            <==> !AnyMissing(pages, first, n) && (doFree ==> !AnyWaiting(pages, first, n))
  {
    hide Entry, Walk;
    forall q: nat | first <= q < first + n
      ensures Entry(mem, tables, q) != UNUSED <==> q in pages
      ensures IsPending(Entry(mem, tables, q)) <==> q in pages && pages[q].Waiting?
    {
      assert Ordinary(q) && ShowsPage(mem, tables, backed, pages, q);
    }
  }

  lemma TouchPanics(mem: Memory, tables: Tables, backed: map<nat, nat>, pages: map<nat, Page>, pn: nat)
    requires Shows(mem, tables, backed, pages) && Ordinary(pn)
    ensures Walk(mem, tables, pn) == Fault ==> (IsPending(Entry(mem, tables, pn)) <==> pn in pages)
    ensures Walk(mem, tables, pn) != Fault ==> pn in pages
  {
    hide Entry, Walk;
    assert ShowsPage(mem, tables, backed, pages, pn);
  }

  lemma ShowsAfterMap(mem: Memory, tables: Tables, mem1: Memory, tables1: Tables, backed: map<nat, nat>,
                      first: nat, n: nat, req: Request, pages: map<nat, Page>)
    requires Shows(mem, tables, backed, pages) && RangeMapped(mem, tables, mem1, tables1, first, n, req)
    ensures Shows(mem1, tables1, backed, WithPages(pages, first, n, req))
  {
    hide Entry, Walk;
    forall q: nat | Ordinary(q)
      ensures ShowsPage(mem1, tables1, backed, WithPages(pages, first, n, req), q)
    {
      assert ShowsPage(mem, tables, backed, pages, q);
      if !(first <= q < first + n) {
        assert AgreeAt(mem, tables, mem1, tables1, q);
      }
    }
  }

  lemma ShowsAfterFree(mem: Memory, tables: Tables, mem1: Memory, tables1: Tables, backed: map<nat, nat>,
                       backed1: map<nat, nat>,
                       first: nat, n: nat, pages: map<nat, Page>)
    requires Shows(mem, tables, backed, pages)
    requires RangeFreed(mem, tables, mem1, tables1, first, n) && BackedOutside(backed, backed1, first, n)
    ensures Shows(mem1, tables1, backed1, pages - PagesFrom(first, n))
  {
    hide Entry, Walk;
    forall q: nat | Ordinary(q)
      ensures ShowsPage(mem1, tables1, backed1, pages - PagesFrom(first, n), q)
    {
      assert ShowsPage(mem, tables, backed, pages, q);
      if !(first <= q < first + n) {
        assert AgreeAt(mem, tables, mem1, tables1, q);
      }
    }
  }

  lemma ShowsAfterFault(mem: Memory, mem1: Memory, tables: Tables, backed: map<nat, nat>, backed1: map<nat, nat>,
                        pn: nat, out: set<nat>, pages: map<nat, Page>)
    requires Shows(mem, tables, backed, pages) && FaultedIn(mem, mem1, tables, backed, backed1, pn, out) && Ordinary(pn)
    ensures Shows(mem1, tables, backed1, Accessed(pages, pn))
  {
    hide Entry, Walk;
    assert ShowsPage(mem, tables, backed, pages, pn);
    forall q: nat | Ordinary(q)
      ensures ShowsPage(mem1, tables, backed1, Accessed(pages, pn), q)
    {
      assert ShowsPage(mem, tables, backed, pages, q);
      if q != pn {
        assert AgreeAt(mem, tables, mem1, tables, q);
      }
    }
  }

  /** An access the hardware lets through changes nothing: the page is not waiting. */
  lemma ShownPresent(mem: Memory, tables: Tables, backed: map<nat, nat>, pages: map<nat, Page>, pn: nat)
    requires Shows(mem, tables, backed, pages) && Ordinary(pn) && Walk(mem, tables, pn) != Fault
    ensures Accessed(pages, pn) == pages
  {
    hide Entry, Walk;
    assert ShowsPage(mem, tables, backed, pages, pn);
  }

  /** The given pages of the tables are those of the flat map. */
  lemma SameGiven(mem: Memory, tables: Tables, backed: map<nat, nat>, pages: map<nat, Page>, first: nat, n: nat)
    requires Shows(mem, tables, backed, pages) && OrdinaryRange(first, n)
    ensures forall q: nat :: IsGiven(mem, tables, backed, first, n, q) <==> ShowsGiven(pages, first, n, q)
    ensures forall q: nat :: ShowsGiven(pages, first, n, q) ==> Entry(mem, tables, q).frame == pages[q].frame
    ensures GivenIn(mem, tables, backed, first, n) == GivenFrames(pages, first, n)
  {
    hide Entry, Walk;
    forall q: nat | first <= q < first + n
      ensures IsGiven(mem, tables, backed, first, n, q) <==> ShowsGiven(pages, first, n, q)
      ensures ShowsGiven(pages, first, n, q) ==> Entry(mem, tables, q).frame == pages[q].frame
    {
      assert Ordinary(q) && ShowsPage(mem, tables, backed, pages, q);
    }
    var a, b := GivenIn(mem, tables, backed, first, n), GivenFrames(pages, first, n);
    forall f | f in a
      ensures f in b
    {
      var q: nat :| first <= q < first + n && IsGiven(mem, tables, backed, first, n, q)
                    && Entry(mem, tables, q).frame == f;
      assert ShowsGiven(pages, first, n, q) && pages[q].frame == f;
    }
    forall f | f in b
      ensures f in a
    {
      var q :| q in PagesFrom(first, n) && ShowsGiven(pages, first, n, q) && pages[q].frame == f;
      assert IsGiven(mem, tables, backed, first, n, q);
    }
  }

  /** Given frames that are the client's own can be given back unless one of them comes twice. */
  lemma OwnGivenBack(mem: Memory, tables: Tables, backed: map<nat, nat>, pages: map<nat, Page>, foreign: set<nat>,
                     own: set<nat>, first: nat, n: nat)
    requires Shows(mem, tables, backed, pages) && OrdinaryRange(first, n)
    requires GivenFrames(pages, first, n) <= own <= foreign
    ensures GivenBack(mem, tables, backed, foreign, first, n) <==> !AnyTwice(pages, first, n)
  {
    hide Entry, Shows;
    SameGiven(mem, tables, backed, pages, first, n);
    forall q: nat | ShowsGiven(pages, first, n, q)
      ensures Entry(mem, tables, q).frame in foreign
    {
      assert pages[q].frame in GivenFrames(pages, first, n);
    }
  }

  /** The client's own frames are safe to free. */
  lemma OwnIsSafe(s: AddressSpace, f: Flat, first: nat, n: nat)
    requires s.Valid() && Shows(s.mem, s.tables, s.backed, f.pages) && OrdinaryRange(first, n)
    requires GivenFrames(f.pages, first, n) <= f.own <= s.foreign
    ensures s.MayFree(first, n)
  {
    hide Entry, Shows, GivenIn;
    SameGiven(s.mem, s.tables, s.backed, f.pages, first, n);
    forall q: nat | IsGiven(s.mem, s.tables, s.backed, first, n, q)
      ensures SafeFrame(Entry(s.mem, s.tables, q).frame, s.pm.totBlk, s.reserved, s.tables, s.backed)
    {
      assert f.pages[q].frame in GivenFrames(f.pages, first, n);
      ForeignIsSafe(s, f.pages[q].frame);
    }
  }

  lemma ForeignIsSafe(s: AddressSpace, f: nat)
    requires s.Valid() && f in s.foreign
    ensures SafeFrame(f, s.pm.totBlk, s.reserved, s.tables, s.backed)
  {
    hide Linked, Leaves, Tidy, Bitmap.FrameAllocator.Levels, Bitmap.FrameAllocator.Used;
  }

  lemma ExplainedStatus(st: Status, mem: Memory, tables: Tables, first: nat, n: nat)
    requires Explained(st, mem, tables, first, n)
    ensures st == Ok || st == BadAddress || st == OutOfFrames || st == ShiftTooFar || st == HugeOnPath || st == InUse
  {
  }

  /** The frames a call takes from their pages and leaves with nobody. */
  ghost function LostFrames(call: Call, backed: map<nat, nat>): set<nat> {
    match call
    case Unmap(vaddr, n) => FramesIn(backed, PageOf(vaddr), n)
    case _ => {}
  }

  /** One call, if a client would make it: the page tables follow the flat map, and the frames of others
      stay as they are but for those that are lost. */
  method Perform(s: AddressSpace, call: Call, f: Flat) returns (st: Status)
    requires s.Valid() && s.BrkOk() && Legal(call)
    requires Shows(s.mem, s.tables, s.backed, f.pages) && s.brk == f.brk && f.own <= s.foreign
    modifies s`mem, s`tables, s`backed, s`foreign, s`brk, s.pm`outstanding, s.pm`reserved, s.pm.bm0, s.pm.bm1
    ensures st == Ok ==> s.Valid() && s.BrkOk()
    ensures st == Ok ==> Shows(s.mem, s.tables, s.backed, After(f, call).pages) && s.brk == After(f, call).brk
    ensures st == Ok ==> !Stops(f, call)
    ensures st == Ok || st == OutOfFrames || st == ShiftTooFar || Stops(f, call)
    ensures st != Ok ==> s.Blames(st)
    ensures st == Ok ==> After(f, call).own <= s.foreign
    ensures st == Ok ==> s.foreign - After(f, call).own == (old(s.foreign) - f.own) + LostFrames(call, old(s.backed))
  {
    hide AddressSpace.Core, AddressSpace.Valid, RangeMapped, RangeFreed, Entry, Walk, PageOf, FaultedIn, Ordinary,
         Extends, BackedOutside, Shows, GivenBack, GivenIn, GivenFrames, AnyTwice, AddressSpace.MayFree, OrdinaryRange,
         Freeable, GoodAddress, WithPages, Accessed, AnyMapped, AnyMissing, AnyWaiting, Explained, FramesIn,
         AddressSpace.Blames, PassesLimit, Canonical, IsFlags;
    ghost var mem0, tables0, backed0, out0 := s.mem, s.tables, s.backed, s.pm.outstanding;
    s.OkBlamesNobody();
    if !Made(f, call) {
      return Ok;
    }
    match call {
      case Map(vaddr, n, flags) =>
        st := s.VmmMap(vaddr, n, flags);
        MapPanics(mem0, tables0, backed0, f.pages, st, s.mem, s.tables, PageOf(vaddr), n, OnDemand(flags));
        ExplainedStatus(st, mem0, tables0, PageOf(vaddr), n);
        if st == Ok {
          ShowsAfterMap(mem0, tables0, s.mem, s.tables, backed0, PageOf(vaddr), n, OnDemand(flags), f.pages);
        }
      case MapTo(vaddr, paddr, n, flags) =>
        st := s.VmmMapTo(vaddr, paddr, n, flags);
        MapPanics(mem0, tables0, backed0, f.pages, st, s.mem, s.tables, PageOf(vaddr), n,
                  ToFrames(paddr / PAGE_SIZE, flags));
        ExplainedStatus(st, mem0, tables0, PageOf(vaddr), n);
        if st == Ok {
          ShowsAfterMap(mem0, tables0, s.mem, s.tables, backed0, PageOf(vaddr), n, ToFrames(paddr / PAGE_SIZE, flags),
              f.pages);
        }
      case Unmap(vaddr, n) =>
        FreePanics(mem0, tables0, backed0, f.pages, PageOf(vaddr), n, false);
        LostIsOwned(s, f, PageOf(vaddr), n);
        st := s.VmmUnmap(vaddr, n);
        s.OkBlamesNobody();
        if st == Ok {
          ShowsAfterFree(mem0, tables0, s.mem, s.tables, backed0, s.backed, PageOf(vaddr), n, f.pages);
        }
      case Free(vaddr, n) =>
        SameGiven(mem0, tables0, backed0, f.pages, PageOf(vaddr), n);
        OwnIsSafe(s, f, PageOf(vaddr), n);
        OwnGivenBack(mem0, tables0, backed0, f.pages, s.foreign, f.own, PageOf(vaddr), n);
        FreePanics(mem0, tables0, backed0, f.pages, PageOf(vaddr), n, true);
        st := s.VmmFree(vaddr, n);
        s.OkBlamesNobody();
        if st == Ok {
          ShowsAfterFree(mem0, tables0, s.mem, s.tables, backed0, s.backed, PageOf(vaddr), n, f.pages);
        }
      case Touch(vaddr) =>
        st := PerformTouch(s, vaddr, f);
      case Sbrk(increment) =>
        st := PerformSbrk(s, increment, f);
    }
  }

  /** The frames behind provided pages are nobody else's. */
  lemma LostIsOwned(s: AddressSpace, f: Flat, first: nat, n: nat)
    requires s.Valid() && f.own <= s.foreign
    ensures FramesIn(s.backed, first, n) !! f.own
  {
    hide Linked, Leaves, Tidy;
    forall x | x in FramesIn(s.backed, first, n)
      ensures x !in f.own
    {
      var q :| q in s.backed && first <= q < first + n && s.backed[q] == x;
      assert x in s.backed.Values;
    }
  }

  /** An access: the hardware walks the tables and calls the page fault handler if it must. */
  method PerformTouch(s: AddressSpace, vaddr: nat, f: Flat) returns (st: Status)
    requires s.Valid() && Ordinary(PageOf(vaddr)) && Shows(s.mem, s.tables, s.backed, f.pages)
    modifies s`mem, s`backed, s.pm`outstanding, s.pm.bm0, s.pm.bm1
    ensures st == Ok ==> s.Valid() && Shows(s.mem, s.tables, s.backed, Accessed(f.pages, PageOf(vaddr)))
    ensures st == Ok ==> PageOf(vaddr) in f.pages
    ensures st == Ok || st == OutOfFrames || st == ShiftTooFar || PageOf(vaddr) !in f.pages
    ensures s.Blames(st)
  {
    hide AddressSpace.Core, AddressSpace.Valid, Entry, Walk, PageOf, FaultedIn, Ordinary, Shows, Accessed,
         AddressSpace.Blames, HwWalk, IsPending;
    ghost var mem0, backed0, out0 := s.mem, s.backed, s.pm.outstanding;
    RootAt(s, PageOf(vaddr));
    TouchPanics(s.mem, s.tables, s.backed, f.pages, PageOf(vaddr));
    if HwWalk(s.mem, s.root, PageOf(vaddr), 4) != Fault {
      ShownPresent(s.mem, s.tables, s.backed, f.pages, PageOf(vaddr));
      s.OkBlamesNobody();
      return Ok;
    }
    st := s.PageFault(vaddr, FaultCode(false, false, false));
    if st == Ok {
      ShowsAfterFault(mem0, s.mem, s.tables, backed0, s.backed, PageOf(vaddr), out0, f.pages);
    }
  }

  lemma RootAt(s: AddressSpace, pn: nat)
    requires s.Valid()
    ensures Walk(s.mem, s.tables, pn) == HwWalk(s.mem, s.root, pn, 4)
  {
    hide HwWalk;
  }

  method PerformSbrk(s: AddressSpace, increment: int, f: Flat) returns (st: Status)
    requires s.Valid() && s.BrkOk() && Made(f, Sbrk(increment)) && IsIntptr(increment)
    requires Shows(s.mem, s.tables, s.backed, f.pages) && s.brk == f.brk && f.own <= s.foreign
    modifies s`mem, s`tables, s`backed, s`foreign, s`brk, s.pm`outstanding, s.pm`reserved, s.pm.bm0, s.pm.bm1
    ensures st == Ok ==> s.Valid() && s.BrkOk()
    ensures st == Ok ==>
      Shows(s.mem, s.tables, s.backed, After(f, Sbrk(increment)).pages) && s.brk == After(f, Sbrk(increment)).brk
    ensures st == Ok ==> !Stops(f, Sbrk(increment)) && After(f, Sbrk(increment)).own <= s.foreign
    ensures st == Ok ==> s.foreign - After(f, Sbrk(increment)).own == old(s.foreign) - f.own
    ensures st == Ok || st == OutOfFrames || st == ShiftTooFar || Stops(f, Sbrk(increment))
    ensures st != Ok ==> s.Blames(st)
  {
    hide AddressSpace.Core, AddressSpace.Valid, RangeMapped, RangeFreed, Entry, Walk, PageOf, Ordinary, Extends,
         BackedOutside, Shows, GivenBack, GivenIn, GivenFrames, AnyTwice, AddressSpace.MayFree, OrdinaryRange, Freeable,
         GoodAddress, WithPages, AnyMapped, AnyMissing, AnyWaiting, Explained, AddressSpace.Blames;
    ghost var mem0, tables0, backed0 := s.mem, s.tables, s.backed;
    s.OkBlamesNobody();
    var ret;
    if increment > 0 {
      st, ret := s.Ksbrk(increment);
      if st == BadAddress || st == PastHeap {
        return;
      }
      AlignedSum(f.brk, increment);
      HeapRange(f.brk, increment / PAGE_SIZE);
      MapPanics(mem0, tables0, backed0, f.pages, st, s.mem, s.tables, PageOf(ret), increment / PAGE_SIZE,
          OnDemand({WRITABLE}));
      ExplainedStatus(st, mem0, tables0, PageOf(ret), increment / PAGE_SIZE);
      if st == Ok {
        ShowsAfterMap(mem0, tables0, s.mem, s.tables, backed0, PageOf(ret), increment / PAGE_SIZE,
            OnDemand({WRITABLE}), f.pages);
      }
      return;
    }
    if increment % PAGE_SIZE != 0 {
      return BadAddress;
    }
    AlignedSum(s.brk, increment);
    ghost var first, n := PageOf(s.brk + increment), -increment / PAGE_SIZE;
    HeapRange(s.brk + increment, n);
    if increment == 0 {
      NothingShown(f.pages, first);
    }
    SameGiven(mem0, tables0, backed0, f.pages, first, n);
    OwnIsSafe(s, f, first, n);
    OwnGivenBack(mem0, tables0, backed0, f.pages, s.foreign, f.own, first, n);
    FreePanics(mem0, tables0, backed0, f.pages, first, n, true);
    st, ret := s.Ksbrk(increment);
    if st == Ok {
      ShowsAfterFree(mem0, tables0, s.mem, s.tables, backed0, s.backed, first, n, f.pages);
    }
  }

  lemma NothingShown(pages: map<nat, Page>, first: nat)
    ensures GivenFrames(pages, first, 0) == {}
  {
  }

  /** The same with the lost frames counted. */
  method PerformCounted(s: AddressSpace, call: Call, f: Flat) returns (st: Status)
    requires s.Valid() && s.BrkOk() && Legal(call)
    requires Shows(s.mem, s.tables, s.backed, f.pages) && s.brk == f.brk && f.own <= s.foreign
    modifies s`mem, s`tables, s`backed, s`foreign, s`brk, s.pm`outstanding, s.pm`reserved, s.pm.bm0, s.pm.bm1
    ensures st == Ok ==> s.Valid() && s.BrkOk()
    ensures st == Ok ==> Shows(s.mem, s.tables, s.backed, After(f, call).pages) && s.brk == After(f, call).brk
    ensures st == Ok ==> !Stops(f, call)
    ensures st == Ok || st == OutOfFrames || st == ShiftTooFar || Stops(f, call)
    ensures st != Ok ==> s.Blames(st)
    ensures st == Ok ==> After(f, call).own <= s.foreign
    ensures st == Ok ==> old(s.foreign) - f.own <= s.foreign - After(f, call).own
    ensures st == Ok ==> |s.foreign - After(f, call).own| == |old(s.foreign) - f.own| + LeakedBy(f, call)
  {
    hide AddressSpace.Core, AddressSpace.Valid, Shows, Legal, Owned, Tidy, After, Stops, AddressSpace.Blames,
         LostFrames, LeakedBy;
    ValidMeans(s);
    LossCounted(s.pm.outstanding, s.foreign, s.tables, s.backed, s.mem, f, call);
    st := Perform(s, call, f);
  }

  /** Every run of calls, up to the first panic: the page tables show exactly what the same calls
      do to a flat map, they stay one tidy tree, and every frame handed out by the allocator is a
      table, the frame of one provided page, the client's own, or somebody else's.  The client's own are
      those it held and did not free; somebody else's are those of the beginning and the ones that
      unmapping leaked, no more and no fewer. */
  method Run(s: AddressSpace, calls: seq<Call>, f: Flat) returns (st: Status)
    requires s.Valid() && s.BrkOk() && Shows(s.mem, s.tables, s.backed, f.pages) && s.brk == f.brk
    requires f.own <= s.foreign && forall c :: c in calls ==> Legal(c)
    modifies s`mem, s`tables, s`backed, s`foreign, s`brk, s.pm`outstanding, s.pm`reserved, s.pm.bm0, s.pm.bm1
    ensures st == Ok ==> s.Valid() && s.BrkOk()
    ensures st == Ok ==> Shows(s.mem, s.tables, s.backed, Replay(f, calls).pages) && s.brk == Replay(f, calls).brk
    ensures st == Ok ==> Owned(s.pm.outstanding, s.foreign, s.tables, s.backed) && Tidy(s.mem, s.tables)
    ensures st == Ok ==> Replay(f, calls).own <= s.foreign
    ensures st == Ok ==> old(s.foreign) - f.own <= s.foreign - Replay(f, calls).own
    ensures st == Ok ==> |s.foreign - Replay(f, calls).own| == |old(s.foreign) - f.own| + Leaked(f, calls)
    ensures st == Ok ==> (s.foreign - Replay(f, calls).own == old(s.foreign) - f.own <==> Leaked(f, calls) == 0)
    ensures st == Ok ==> NothingStops(f, calls)
    ensures st != Ok && st != OutOfFrames && st != ShiftTooFar ==> !NothingStops(f, calls)
    ensures st != Ok ==> s.Blames(st)
  {
    hide AddressSpace.Core, AddressSpace.Valid, AddressSpace.BrkOk, Shows, Legal, Owned, Tidy, After, Stops,
         AddressSpace.Blames, LeakedBy;
    RunStart(f);
    hide Replay, Leaked, NothingStops;
    var flat := f;
    st := Ok;
    var i := 0;
    ghost var others := s.foreign - f.own;
    assert calls[..0] == [];
    while i < |calls|
      invariant 0 <= i <= |calls| && st == Ok && flat == Replay(f, calls[..i])
      invariant s.Valid() && s.BrkOk() && Shows(s.mem, s.tables, s.backed, flat.pages) && s.brk == flat.brk
      invariant flat.own <= s.foreign && others <= s.foreign - flat.own
      invariant |s.foreign - flat.own| == |others| + Leaked(f, calls[..i])
      invariant NothingStops(f, calls[..i])
    {
      GoesOn(f, calls, i);
      st := PerformCounted(s, calls[i], flat);
      if st != Ok {
        return;
      }
      RunNext(f, calls, i);
      flat := After(flat, calls[i]);
      i := i + 1;
    }
    assert calls[..i] == calls;
    ValidMeans(s);
    SameSize(others, s.foreign - flat.own);
  }

  lemma RunStart(f: Flat)
    ensures Replay(f, []) == f && Leaked(f, []) == 0 && NothingStops(f, [])
  {
  }

  lemma GoesOn(f: Flat, calls: seq<Call>, i: nat)
    requires i < |calls| && NothingStops(f, calls[..i])
    ensures if Stops(Replay(f, calls[..i]), calls[i]) then !NothingStops(f, calls) else NothingStops(f, calls[..i + 1])
  {
    hide Stops, Replay;
    var upto, next := calls[..i], calls[..i + 1];
    assert forall k :: 0 <= k < i ==> upto[..k] == calls[..k] && upto[k] == calls[k];
    assert forall k :: 0 <= k < i + 1 ==> next[..k] == calls[..k] && next[k] == calls[k];
    if !Stops(Replay(f, calls[..i]), calls[i]) {
      forall k | 0 <= k < |next|
        ensures !Stops(Replay(f, next[..k]), next[k])
      {
        assert k < i ==> !Stops(Replay(f, upto[..k]), upto[k]);
      }
    }
  }

  lemma RunNext(f: Flat, calls: seq<Call>, i: nat)
    requires i < |calls|
    ensures Replay(f, calls[..i + 1]) == After(Replay(f, calls[..i]), calls[i])
    ensures Leaked(f, calls[..i + 1]) == Leaked(f, calls[..i]) + LeakedBy(Replay(f, calls[..i]), calls[i])
  {
    hide After, LeakedBy;
    assert calls[..i + 1][..i] == calls[..i];
  }

  lemma LossCounted(out: set<nat>, foreign: set<nat>, tables: Tables, backed: map<nat, nat>, mem: Memory, f: Flat,
                    call: Call)
    requires Owned(out, foreign, tables, backed) && Shows(mem, tables, backed, f.pages) && Legal(call)
    ensures |(foreign - f.own) + LostFrames(call, backed)| == |foreign - f.own| + LeakedBy(f, call)
  {
    hide Owned, Shows, FramesIn, ProvidedIn, PageOf;
    var rest := foreign - f.own;
    match call {
      case Unmap(vaddr, n) => FramesCounted(out, foreign, tables, backed, mem, f.pages, PageOf(vaddr), n, rest);
      case _ => assert rest + {} == rest;
    }
  }

  lemma ValidMeans(s: AddressSpace)
    requires s.Valid()
    ensures Owned(s.pm.outstanding, s.foreign, s.tables, s.backed) && Tidy(s.mem, s.tables)
  {
  }

  /** A fresh address space shows the empty map. */
  lemma FreshShowsNothing(s: AddressSpace)
    requires s.Valid() && s.backed == map[]
    requires forall pn :: Ordinary(pn) ==> Entry(s.mem, s.tables, pn) == UNUSED && Walk(s.mem, s.tables, pn) == Fault
    ensures Shows(s.mem, s.tables, s.backed, map[])
  {
    hide Entry, Walk;
    forall q: nat | Ordinary(q)
      ensures ShowsPage(s.mem, s.tables, s.backed, map[], q)
    {
      assert Entry(s.mem, s.tables, q) == UNUSED && Walk(s.mem, s.tables, q) == Fault;
    }
  }

  /** The whole life of an address space, from its creation in frame `root`, for a client that holds the
      frames `own`.  As long as nothing leaks, the frames in use are those of others, the client's own
      that it did not free, the live tables (the root among them) and those of the provided pages. */
  method Live(rev: Revision, pm: Bitmap.FrameAllocator, root: nat, own: set<nat>, calls: seq<Call>)
    returns (s: AddressSpace, st: Status)
    requires pm.Valid() && pm.base == 0 && pm.totBlk <= 0x100_0000_0000
    requires PAGE_SIZE <= pm.fastStart && pm.fastStart % PAGE_SIZE == 0 && pm.CounterFresh()
    requires root in pm.outstanding && own <= pm.outstanding - {root}
    requires forall c :: c in calls ==> Legal(c)
    modifies pm`outstanding, pm`reserved, pm.bm0, pm.bm1
    ensures s.pm == pm && s.rev == rev
    ensures st == Ok ==> s.Valid() && s.root == root && s.reserved == old(pm.reserved)
    ensures st == Ok ==> Shows(s.mem, s.tables, s.backed, Replay(Flat(map[], KRNL_HEAP_START, own), calls).pages)
    ensures st == Ok ==>
      (pm.outstanding == (old(pm.outstanding) - {root} - own) + Replay(Flat(map[], KRNL_HEAP_START, own), calls).own
                         + s.tables.Values + s.backed.Values
       <==> Leaked(Flat(map[], KRNL_HEAP_START, own), calls) == 0)
    ensures st == Ok ==> NothingStops(Flat(map[], KRNL_HEAP_START, own), calls)
    ensures st != Ok && st != OutOfFrames && st != ShiftTooFar ==>
      !NothingStops(Flat(map[], KRNL_HEAP_START, own), calls)
    ensures st != Ok ==> s.Blames(st)
  {
    hide AddressSpace.Core, AddressSpace.Valid, Shows, Legal, Tidy, After, Entry, Walk, Replay, NothingStops, Leaked,
         AddressSpace.Blames;
    ghost var others := pm.outstanding - {root} - own;
    s := new AddressSpace(rev, pm, root);
    FreshShowsNothing(s);
    st := Run(s, calls, Flat(map[], KRNL_HEAP_START, own));
    if st == Ok {
      OthersOnly(pm.outstanding, s.foreign, s.tables, s.backed, others,
                 Replay(Flat(map[], KRNL_HEAP_START, own), calls).own);
    }
  }

  lemma OthersOnly(out: set<nat>, foreign: set<nat>, tables: Tables, backed: map<nat, nat>, others: set<nat>,
                   own: set<nat>)
    requires Owned(out, foreign, tables, backed) && own <= foreign && others <= foreign - own
    ensures out == others + own + tables.Values + backed.Values <==> foreign - own == others
  {
    if foreign - own != others {
      var x :| x in foreign - own && x !in others;
      assert x in out && x !in others + own + tables.Values + backed.Values;
    }
  }
}
