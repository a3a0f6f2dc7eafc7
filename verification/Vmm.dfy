/** The virtual memory manager of kernel/arch/x86_64/mem/vmm.c on one address space: it edits
    the page tables through their self-mapped addresses and takes frames from the bitmap
    allocator. */
module Vmm {
  import opened Common
  import opened PageTable
  import Bitmap

  // ----- who owns which frame -----

  /** The frames handed out by the allocator are the live tables, the demand-backed pages and
      those held by others, each in exactly one role. */
  ghost predicate Owned(out: set<nat>, foreign: set<nat>, tables: Tables, backed: map<nat, nat>) {
    && out == foreign + tables.Values + backed.Values
    && foreign !! tables.Values && foreign !! backed.Values && tables.Values !! backed.Values
    && Injective(tables)
    && forall p, q :: p in backed && q in backed && backed[p] == backed[q] ==> p == q
  }

  lemma OwnTable(out: set<nat>, foreign: set<nat>, tables: Tables, backed: map<nat, nat>, c: Node, f: nat)
    requires Owned(out, foreign, tables, backed) && c !in tables && f !in out
    ensures Owned(out + {f}, foreign, tables[c := f], backed)
  {
    var tables1 := tables[c := f];
    assert tables1.Values == tables.Values + {f} by {
      assert f in tables1.Values by { assert c in tables1 && tables1[c] == f; }
      forall g | g in tables.Values ensures g in tables1.Values {
        var n :| n in tables && tables[n] == g;
        assert n in tables1 && tables1[n] == g;
      }
    }
  }

  lemma DisownTable(out: set<nat>, foreign: set<nat>, tables: Tables, backed: map<nat, nat>, c: Node)
    requires Owned(out, foreign, tables, backed) && c in tables
    ensures Owned(out - {tables[c]}, foreign, tables - {c}, backed)
  {
    var tables1 := tables - {c};
    assert tables1.Values == tables.Values - {tables[c]} by {
      forall g | g in tables.Values - {tables[c]} ensures g in tables1.Values {
        var n :| n in tables && tables[n] == g;
        assert n in tables1 && tables1[n] == g;
      }
    }
  }

  lemma OwnPage(out: set<nat>, foreign: set<nat>, tables: Tables, backed: map<nat, nat>, pn: nat, f: nat)
    requires Owned(out, foreign, tables, backed) && pn !in backed && f !in out
    ensures Owned(out + {f}, foreign, tables, backed[pn := f])
  {
    var backed1 := backed[pn := f];
    assert backed1.Values == backed.Values + {f} by {
      assert f in backed1.Values by { assert pn in backed1 && backed1[pn] == f; }
      forall g | g in backed.Values ensures g in backed1.Values {
        var n :| n in backed && backed[n] == g;
        assert n in backed1 && backed1[n] == g;
      }
    }
  }

  lemma DisownPage(out: set<nat>, foreign: set<nat>, tables: Tables, backed: map<nat, nat>, pn: nat)
    requires Owned(out, foreign, tables, backed) && pn in backed
    ensures Owned(out - {backed[pn]}, foreign, tables, backed - {pn})
  {
    var backed1 := backed - {pn};
    assert backed1.Values == backed.Values - {backed[pn]} by {
      forall g | g in backed.Values - {backed[pn]} ensures g in backed1.Values {
        var n :| n in backed && backed[n] == g;
        assert n in backed1 && backed1[n] == g;
      }
    }
  }

  /** Somebody else's frame goes back to the allocator. */
  lemma ReturnForeign(out: set<nat>, foreign: set<nat>, tables: Tables, backed: map<nat, nat>, f: nat)
    requires Owned(out, foreign, tables, backed) && f in foreign
    ensures Owned(out - {f}, foreign - {f}, tables, backed)
  {
  }

  /** Backed pages are present on their own frame; other leaves that are not present wait for
      their first access. */
  ghost predicate Leaves(mem: Memory, tables: Tables, backed: map<nat, nat>) {
    && (forall pn :: pn in backed ==>
          Ordinary(pn) && Present(Entry(mem, tables, pn)) && Entry(mem, tables, pn).frame == backed[pn])
    && (forall pn :: Ordinary(pn) && Entry(mem, tables, pn) != UNUSED && !Present(Entry(mem, tables, pn)) ==>
          IsPending(Entry(mem, tables, pn)))
  }

  /** What vmm_map writes: no frame, not present, to be allocated. */
  predicate IsPending(e: Pte) {
    e.frame == 0 && !Present(e) && TO_ALLOC in e.flags
  }

  /** Every ordinary page is seen as before. */
  ghost predicate SameView(mem: Memory, tables: Tables, mem1: Memory, tables1: Tables) {
    forall pn :: Ordinary(pn) ==> AgreeAt(mem, tables, mem1, tables1, pn)
  }

  /** Every ordinary page but pn is seen as before, and pn's leaf is e. */
  ghost predicate OneChanged(mem: Memory, tables: Tables, mem1: Memory, tables1: Tables, pn: nat, e: Pte) {
    && Entry(mem1, tables1, pn) == e && Walk(mem1, tables1, pn) == Result(1, e)
    && forall q :: Ordinary(q) && q != pn ==> AgreeAt(mem, tables, mem1, tables1, q)
  }

  /** Live tables stay where they are. */
  ghost predicate Extends(tables: Tables, tables1: Tables) {
    forall n :: n in tables ==> n in tables1 && tables1[n] == tables[n]
  }

  lemma OwnedTables(out: set<nat>, foreign: set<nat>, tables: Tables, backed: map<nat, nat>)
    requires Owned(out, foreign, tables, backed)
    ensures tables.Values <= out && backed.Values <= out && Injective(tables)
    ensures forall p :: p in backed ==> backed[p] in out
  {
  }

  lemma LeavesSameView(mem: Memory, tables: Tables, mem1: Memory, tables1: Tables, backed: map<nat, nat>)
    requires Leaves(mem, tables, backed) && SameView(mem, tables, mem1, tables1)
    ensures Leaves(mem1, tables1, backed)
  {
    hide Entry, Walk;
    assert forall pn :: Ordinary(pn) ==> AgreeAt(mem, tables, mem1, tables1, pn);
  }

  /** Everything that adding a table on the path of page pn keeps. */
  lemma AddSummary(mem: Memory, tables: Tables, n: Node, i: nat, f: nat, pn: nat, backed: map<nat, nat>)
    requires Linked(mem, tables) && TidyOff(mem, tables, pn) && Leaves(mem, tables, backed)
    requires n in tables && 1 < n.level <= 4 && n == NodeOn(pn, n.level) && i == Index(pn, n.level)
    requires Plain(n, i) && EntryOf(mem, tables, n, i) == UNUSED && f !in tables.Values
    ensures HasTable(mem, tables, n) && Child(n, i) !in tables
    ensures var mem1, tables1 := AddMem(mem, tables, n, i, f), tables[Child(n, i) := f];
            && Linked(mem1, tables1) && TidyOff(mem1, tables1, pn) && Leaves(mem1, tables1, backed)
            && SameView(mem, tables, mem1, tables1) && Extends(tables, tables1)
            && tables1[ROOT] == tables[ROOT]
            && mem1 == Store(mem, tables[n], i, Pte(f, {PRESENT, WRITABLE}))[f := ZeroPage()]
            && SameButAt(Store(mem, tables[n], i, Pte(f, {PRESENT, WRITABLE})), mem1, tables1, Child(n, i))
  {
    assert NodeLinked(mem, tables, n);
    var c := Child(n, i);
    var mem1, tables1 := AddMem(mem, tables, n, i, f), tables[c := f];
    ChildOnPath(pn, n.level);
    ChildFresh(mem, tables, n, i);
    AddKeepsLinked(mem, tables, n, i, f);
    AddKeepsTidyOff(mem, tables, pn, n.level, f);
    forall q | Ordinary(q)
      ensures AgreeAt(mem, tables, mem1, tables1, q)
    {
      AddKeepsView(mem, tables, n, i, f, q);
    }
    LeavesSameView(mem, tables, mem1, tables1, backed);
    forall m | m in tables1 && m != c
      ensures HasTable(mem, tables, m) && tables[m] != f
    {
      assert NodeLinked(mem, tables, m);
    }
  }

  lemma SameViewRefl(mem: Memory, tables: Tables)
    ensures SameView(mem, tables, mem, tables) && Extends(tables, tables)
  {
  }

  lemma SameViewTrans(mem: Memory, tables: Tables, mem1: Memory, tables1: Tables, mem2: Memory, tables2: Tables)
    requires SameView(mem, tables, mem1, tables1) && Extends(tables, tables1)
    requires SameView(mem1, tables1, mem2, tables2) && Extends(tables1, tables2)
    ensures SameView(mem, tables, mem2, tables2) && Extends(tables, tables2)
  {
    hide Entry, Walk;
    forall pn | Ordinary(pn)
      ensures AgreeAt(mem, tables, mem2, tables2, pn)
    {
      assert AgreeAt(mem, tables, mem1, tables1, pn) && AgreeAt(mem1, tables1, mem2, tables2, pn);
    }
  }

  lemma SameViewAt(mem: Memory, tables: Tables, mem1: Memory, tables1: Tables, pn: nat)
    requires SameView(mem, tables, mem1, tables1) && Ordinary(pn)
    ensures Entry(mem, tables, pn) == Entry(mem1, tables1, pn) && Walk(mem, tables, pn) == Walk(mem1, tables1, pn)
  {
    assert AgreeAt(mem, tables, mem1, tables1, pn);
  }

  lemma RootLive(mem: Memory, tables: Tables)
    requires Linked(mem, tables)
    ensures ROOT in tables && HasTable(mem, tables, ROOT)
  {
    assert NodeLinked(mem, tables, ROOT);
  }

  lemma TidyIsTidyOff(mem: Memory, tables: Tables, pn: nat)
    requires Tidy(mem, tables)
    ensures TidyOff(mem, tables, pn) && Linked(mem, tables)
  {
  }

  /** Writing the leaf of page pn changes nothing else. */
  lemma LeafWritten(mem: Memory, tables: Tables, pn: nat, e: Pte)
    requires Linked(mem, tables) && Ordinary(pn) && NodeOn(pn, 1) in tables
    ensures HasTable(mem, tables, NodeOn(pn, 1))
    ensures var mem1 := Store(mem, tables[NodeOn(pn, 1)], Index(pn, 1), e);
            Linked(mem1, tables) && OneChanged(mem, tables, mem1, tables, pn, e)
  {
    SetLeafKeepsLinked(mem, tables, NodeOn(pn, 1), Index(pn, 1), e);
    hide Linked;
    SetLeafView(mem, tables, pn, e, pn);
    forall q | Ordinary(q) && q != pn
      ensures AgreeAt(mem, tables, Store(mem, tables[NodeOn(pn, 1)], Index(pn, 1), e), tables, q)
    {
      SetLeafView(mem, tables, pn, e, q);
    }
  }

  lemma OneChangedAfter(mem: Memory, tables: Tables, mem1: Memory, tables1: Tables, mem2: Memory, tables2: Tables,
                        pn: nat, e: Pte)
    requires SameView(mem, tables, mem1, tables1) && OneChanged(mem1, tables1, mem2, tables2, pn, e)
    ensures OneChanged(mem, tables, mem2, tables2, pn, e)
  {
    hide Entry, Walk;
    forall q | Ordinary(q) && q != pn
      ensures AgreeAt(mem, tables, mem2, tables2, q)
    {
      assert AgreeAt(mem, tables, mem1, tables1, q) && AgreeAt(mem1, tables1, mem2, tables2, q);
    }
  }

  lemma LeavesOneChanged(mem: Memory, tables: Tables, mem1: Memory, tables1: Tables, pn: nat, e: Pte,
                         backed: map<nat, nat>)
    requires Leaves(mem, tables, backed) && OneChanged(mem, tables, mem1, tables1, pn, e)
    requires pn !in backed && (Present(e) || IsPending(e) || e == UNUSED)
    ensures Leaves(mem1, tables1, backed)
  {
    hide Entry, Walk;
    forall q | Ordinary(q) && q != pn
      ensures Entry(mem, tables, q) == Entry(mem1, tables1, q)
    {
      assert AgreeAt(mem, tables, mem1, tables1, q);
    }
  }

  /** Everything that writing the unused leaf of page pn achieves. */
  lemma LeafSummary(mem: Memory, tables: Tables, mem1: Memory, tables1: Tables, pn: nat, e: Pte, backed: map<nat, nat>)
    requires SameView(mem, tables, mem1, tables1)
    requires Linked(mem1, tables1) && TidyOff(mem1, tables1, pn) && Leaves(mem1, tables1, backed)
    requires Ordinary(pn) && NodeOn(pn, 1) in tables1 && Entry(mem1, tables1, pn) == UNUSED
    requires Present(e) || IsPending(e)
    ensures HasTable(mem1, tables1, NodeOn(pn, 1))
    ensures var mem2 := Store(mem1, tables1[NodeOn(pn, 1)], Index(pn, 1), e);
            && Tidy(mem2, tables1) && Linked(mem2, tables1) && Leaves(mem2, tables1, backed)
            && OneChanged(mem, tables, mem2, tables1, pn, e)
  {
    hide Linked, Tidy, TidyOff, SameView, Walk, HwWalk;
    assert pn !in backed;
    SetLeafTidyOff(mem1, tables1, pn, e);
    LeafWritten(mem1, tables1, pn, e);
    var mem2 := Store(mem1, tables1[NodeOn(pn, 1)], Index(pn, 1), e);
    LeafMakesTidy(mem2, tables1, pn);
    LeavesOneChanged(mem1, tables1, mem2, tables1, pn, e, backed);
    OneChangedAfter(mem, tables, mem1, tables1, mem2, tables1, pn, e);
  }

  lemma TidyButOne(mem: Memory, tables: Tables, pn: nat, level: nat)
    requires TidyBut(mem, tables, pn, level)
    requires level == 4 || NonEmpty(mem, tables, NodeOn(pn, level))
    ensures Tidy(mem, tables)
  {
  }

  /** Everything that clearing the entry of an empty table on the path of pn keeps. */
  lemma PruneSummary(mem: Memory, tables: Tables, pn: nat, level: nat, backed: map<nat, nat>)
    requires Ordinary(pn) && 1 < level <= 4 && TidyBut(mem, tables, pn, level - 1) && Leaves(mem, tables, backed)
    requires NodeOn(pn, level) in tables && NodeOn(pn, level - 1) in tables
    requires !NonEmpty(mem, tables, NodeOn(pn, level - 1))
    ensures HasTable(mem, tables, NodeOn(pn, level))
    ensures EntryOf(mem, tables, NodeOn(pn, level), Index(pn, level)).frame == tables[NodeOn(pn, level - 1)]
    ensures var mem1 := Store(mem, tables[NodeOn(pn, level)], Index(pn, level), UNUSED);
            var tables1 := tables - {NodeOn(pn, level - 1)};
            && Linked(mem1, tables1) && TidyBut(mem1, tables1, pn, level) && Leaves(mem1, tables1, backed)
            && SameView(mem, tables, mem1, tables1) && Extends(tables1, tables)
            && tables1[ROOT] == tables[ROOT]
  {
    var n, i, c := NodeOn(pn, level), Index(pn, level), NodeOn(pn, level - 1);
    PathEndsAtRoot(pn);
    ChildOnPath(pn, level);
    assert NodeLinked(mem, tables, n) && EntryLinked(mem, tables, n, i);
    var mem1, tables1 := Store(mem, tables[n], i, UNUSED), tables - {c};
    RemoveKeepsTidyBut(mem, tables, pn, level);
    forall q | Ordinary(q)
      ensures AgreeAt(mem, tables, mem1, tables1, q)
    {
      RemoveKeepsView(mem, tables, n, i, q);
    }
    LeavesSameView(mem, tables, mem1, tables1, backed);
  }

  lemma NoLeafWithoutPath(mem: Memory, tables: Tables, pn: nat)
    requires Linked(mem, tables) && Ordinary(pn)
    ensures ROOT in tables
    ensures NodeOn(pn, 1) !in tables ==> Entry(mem, tables, pn) == UNUSED
    ensures NodeOn(pn, 1) in tables ==> NodeOn(pn, 2) in tables
    ensures NodeOn(pn, 2) in tables ==> NodeOn(pn, 3) in tables
  {
    if NodeOn(pn, 1) in tables {
      PathClosed(mem, tables, pn, 1, 2);
    }
    if NodeOn(pn, 2) in tables {
      PathClosed(mem, tables, pn, 2, 3);
    }
  }

  /** A leaf is unused, waiting, backed, or present on a frame that is not ours. */
  lemma LeafKinds(mem: Memory, tables: Tables, backed: map<nat, nat>, pn: nat)
    requires Leaves(mem, tables, backed) && Ordinary(pn)
    ensures var e := Entry(mem, tables, pn);
            && (pn in backed ==> Present(e) && e.frame == backed[pn])
            && (e != UNUSED && !Present(e) ==> IsPending(e))
  {
  }

  /** vmm_unmap of a backed page leaves its frame with nobody the code knows of. */
  lemma AbandonPage(out: set<nat>, foreign: set<nat>, tables: Tables, backed: map<nat, nat>, pn: nat)
    requires Owned(out, foreign, tables, backed) && pn in backed
    ensures Owned(out, foreign + {backed[pn]}, tables, backed - {pn})
  {
    DisownPage(out, foreign, tables, backed, pn);
    var f := backed[pn];
    assert f in backed.Values && f in out;
    assert f !in (backed - {pn}).Values;
  }

  lemma ClearSummary(mem: Memory, tables: Tables, pn: nat, backed: map<nat, nat>)
    requires Tidy(mem, tables) && Ordinary(pn) && NodeOn(pn, 1) in tables && Leaves(mem, tables, backed)
    ensures HasTable(mem, tables, NodeOn(pn, 1))
    ensures var mem1 := Store(mem, tables[NodeOn(pn, 1)], Index(pn, 1), UNUSED);
            && Linked(mem1, tables) && TidyBut(mem1, tables, pn, 1) && Leaves(mem1, tables, backed - {pn})
            && OneChanged(mem, tables, mem1, tables, pn, UNUSED)
  {
    hide Linked, Entry, Walk, HwWalk, OneChanged, TidyBut, TidyOff, Tidy;
    TidyIsTidyOff(mem, tables, pn);
    SetLeafTidyOff(mem, tables, pn, UNUSED);
    LeafWritten(mem, tables, pn, UNUSED);
    var mem1 := Store(mem, tables[NodeOn(pn, 1)], Index(pn, 1), UNUSED);
    TidyOffIsTidyBut(mem1, tables, pn);
    LeavesOneChanged(mem, tables, mem1, tables, pn, UNUSED, backed - {pn});
  }

  lemma OneChangedBefore(mem: Memory, tables: Tables, mem1: Memory, tables1: Tables, mem2: Memory, tables2: Tables,
                         pn: nat, e: Pte)
    requires Ordinary(pn)
    requires OneChanged(mem, tables, mem1, tables1, pn, e) && SameView(mem1, tables1, mem2, tables2)
    ensures OneChanged(mem, tables, mem2, tables2, pn, e)
  {
    hide Entry, Walk;
    assert AgreeAt(mem1, tables1, mem2, tables2, pn);
    forall q | Ordinary(q) && q != pn
      ensures AgreeAt(mem, tables, mem2, tables2, q)
    {
      assert AgreeAt(mem, tables, mem1, tables1, q) && AgreeAt(mem1, tables1, mem2, tables2, q);
    }
  }

  lemma SameViewShrink(mem: Memory, tables: Tables, mem1: Memory, tables1: Tables, mem2: Memory, tables2: Tables)
    requires SameView(mem, tables, mem1, tables1) && Extends(tables1, tables)
    requires SameView(mem1, tables1, mem2, tables2) && Extends(tables2, tables1)
    ensures SameView(mem, tables, mem2, tables2) && Extends(tables2, tables)
  {
    hide Entry, Walk;
    forall pn | Ordinary(pn)
      ensures AgreeAt(mem, tables, mem2, tables2, pn)
    {
      assert AgreeAt(mem, tables, mem1, tables1, pn) && AgreeAt(mem1, tables1, mem2, tables2, pn);
    }
  }

  lemma UnusedLeafFaults(mem: Memory, tables: Tables, pn: nat)
    requires Linked(mem, tables) && Ordinary(pn) && NodeOn(pn, 1) in tables && Entry(mem, tables, pn) == UNUSED
    ensures Walk(mem, tables, pn) == Fault
  {
    WalkIsDeepest(mem, tables, pn);
  }

  lemma ExtendsTrans(a: Tables, b: Tables, c: Tables)
    requires Extends(a, b) && Extends(b, c)
    ensures Extends(a, c)
  {
  }

  // ----- ranges of pages -----

  /** What a mapping call asks for: consecutive given frames, or frames on first access. */
  datatype Request = ToFrames(frame: nat, flags: set<nat>) | OnDemand(flags: set<nat>)

  /** The leaf for page i of a request. */
  function Leaf(req: Request, i: nat): (e: Pte)
    ensures Present(e) || IsPending(e)
  {
    match req
    case ToFrames(frame, flags) => Pte(frame + i, flags + {PRESENT})
    case OnDemand(flags) => Pte(0, flags + {TO_ALLOC} - {PRESENT})
  }

  predicate IsHugePage(m: Mapping) {
    m.Page? && m.level > 1
  }

  ghost predicate OrdinaryRange(first: nat, n: nat) {
    forall q: nat :: first <= q < first + n ==> Ordinary(q)
  }

  /** Going one page up from an address. */
  lemma NextPage(vaddr: nat)
    requires Ordinary(PageOf(vaddr) + 1)
    ensures PageOf(vaddr + PAGE_SIZE) == PageOf(vaddr) + 1
  {
    assert (vaddr + 4096) / 4096 == vaddr / 4096 + 1;
  }

  /** Exactly the n pages from `first` were unmapped before and have the requested leaves. */
  ghost predicate RangeMapped(mem: Memory, tables: Tables, mem1: Memory, tables1: Tables, first: nat, n: nat,
                              req: Request) {
    forall q: nat :: Ordinary(q) ==>
      if first <= q < first + n then
        && Entry(mem, tables, q) == UNUSED && Walk(mem, tables, q) == Fault
        && Entry(mem1, tables1, q) == Leaf(req, q - first)
        && Walk(mem1, tables1, q) == Result(1, Leaf(req, q - first))
      else AgreeAt(mem, tables, mem1, tables1, q)
  }

  /** Why a range could not be mapped. */
  ghost predicate Explained(st: Status, mem: Memory, tables: Tables, first: nat, n: nat) {
    && (st == Ok || st == BadAddress || st == HugeOnPath || st == OutOfFrames || st == ShiftTooFar || st == InUse)
    && (st == InUse ==> exists q: nat :: first <= q < first + n && Entry(mem, tables, q) != UNUSED)
    && (st == HugeOnPath ==> exists q: nat :: first <= q < first + n && IsHugePage(Walk(mem, tables, q)))
  }

  lemma BadIsExplained(mem: Memory, tables: Tables, first: nat, n: nat)
    ensures Explained(BadAddress, mem, tables, first, n)
  {
  }

  lemma RangeMappedEmpty(mem: Memory, tables: Tables, first: nat, req: Request)
    ensures RangeMapped(mem, tables, mem, tables, first, 0, req)
  {
  }

  lemma RangeMappedOutside(mem: Memory, tables: Tables, mem1: Memory, tables1: Tables, first: nat, n: nat,
                           req: Request, q: nat)
    requires RangeMapped(mem, tables, mem1, tables1, first, n, req) && Ordinary(q) && q >= first + n
    ensures Entry(mem, tables, q) == Entry(mem1, tables1, q) && Walk(mem, tables, q) == Walk(mem1, tables1, q)
  {
    assert AgreeAt(mem, tables, mem1, tables1, q);
  }

  lemma RangeMappedStep(mem: Memory, tables: Tables, mem1: Memory, tables1: Tables, mem2: Memory, tables2: Tables,
                        first: nat, i: nat, req: Request)
    requires RangeMapped(mem, tables, mem1, tables1, first, i, req) && Ordinary(first + i)
    requires OneChanged(mem1, tables1, mem2, tables2, first + i, Leaf(req, i))
    requires Entry(mem1, tables1, first + i) == UNUSED && Walk(mem1, tables1, first + i) == Fault
    ensures RangeMapped(mem, tables, mem2, tables2, first, i + 1, req)
  {
    hide Entry, Walk, Leaf;
    forall q: nat | Ordinary(q)
      ensures if first <= q < first + (i + 1) then
                && Entry(mem, tables, q) == UNUSED && Walk(mem, tables, q) == Fault
                && Entry(mem2, tables2, q) == Leaf(req, q - first)
                && Walk(mem2, tables2, q) == Result(1, Leaf(req, q - first))
              else AgreeAt(mem, tables, mem2, tables2, q)
    {
      if q != first + i {
        assert AgreeAt(mem1, tables1, mem2, tables2, q);
      } else {
        assert AgreeAt(mem, tables, mem1, tables1, q);
      }
    }
  }

  /** vmm_map_to writes the given frames in a row, each with the given flags and present, and the hardware
      lets a page be written exactly when the flags say so. */
  lemma MappedToLeaf(mem: Memory, tables: Tables, mem1: Memory, tables1: Tables, first: nat, n: nat,
                     frame: nat, flags: set<nat>, q: nat)
    requires RangeMapped(mem, tables, mem1, tables1, first, n, ToFrames(frame, flags)) && Linked(mem1, tables1)
    requires first <= q < first + n && Ordinary(q)
    ensures Entry(mem1, tables1, q) == Pte(frame + (q - first), flags + {PRESENT})
    ensures Writable(mem1, tables1, q) <==> WRITABLE in flags
  {
    hide Entry, Walk, Writable, Linked;
    WritableIsLeaf(mem1, tables1, q);
  }

  /** vmm_map writes no frame, the given flags, not present and to be allocated: the hardware faults. */
  lemma MappedLeaf(mem: Memory, tables: Tables, mem1: Memory, tables1: Tables, first: nat, n: nat,
                   flags: set<nat>, q: nat)
    requires RangeMapped(mem, tables, mem1, tables1, first, n, OnDemand(flags))
    requires first <= q < first + n && Ordinary(q)
    ensures Entry(mem1, tables1, q) == Pte(0, flags + {TO_ALLOC} - {PRESENT})
    ensures Walk(mem1, tables1, q) == Fault
  {
    hide Entry, Walk;
  }

  /** Exactly the n pages from `first` were in use and are now unmapped. */
  ghost predicate RangeFreed(mem: Memory, tables: Tables, mem1: Memory, tables1: Tables, first: nat, n: nat) {
    forall q: nat :: Ordinary(q) ==>
      if first <= q < first + n then
        Entry(mem, tables, q) != UNUSED && Entry(mem1, tables1, q) == UNUSED && Walk(mem1, tables1, q) == Fault
      else AgreeAt(mem, tables, mem1, tables1, q)
  }

  /** Every page of the range has a leaf, and for vmm_free one that was already faulted in. */
  ghost predicate Freeable(mem: Memory, tables: Tables, first: nat, n: nat, doFree: bool) {
    forall q: nat :: first <= q < first + n ==>
      Entry(mem, tables, q) != UNUSED && (doFree ==> !IsPending(Entry(mem, tables, q)))
  }

  /** A page of the range that is present on a frame its mapper chose. */
  ghost predicate IsGiven(mem: Memory, tables: Tables, backed: map<nat, nat>, first: nat, n: nat, q: nat) {
    first <= q < first + n && q !in backed && Present(Entry(mem, tables, q))
  }

  /** The frames of these pages. */
  ghost function GivenIn(mem: Memory, tables: Tables, backed: map<nat, nat>, first: nat, n: nat): set<nat> {
    set q: nat | first <= q < first + n && IsGiven(mem, tables, backed, first, n, q) :: Entry(mem, tables, q).frame
  }

  /** Each of them can be given back to the allocator: it was handed out to somebody, and only one page
      of the range shows it. */
  ghost predicate GivenBack(mem: Memory, tables: Tables, backed: map<nat, nat>, foreign: set<nat>, first: nat, n: nat) {
    && (forall q: nat :: IsGiven(mem, tables, backed, first, n, q) ==> Entry(mem, tables, q).frame in foreign)
    && (forall p: nat, q: nat ::
          IsGiven(mem, tables, backed, first, n, p) && IsGiven(mem, tables, backed, first, n, q) && p != q ==>
            Entry(mem, tables, p).frame != Entry(mem, tables, q).frame)
  }

  /** A frame that is managed, was not in use to begin with, and is neither a table nor behind a provided
      page: free, or somebody else's. */
  ghost predicate SafeFrame(f: nat, tot: nat, reserved: set<nat>, tables: Tables, backed: map<nat, nat>) {
    f < tot && f !in reserved && f !in tables.Values && f !in backed.Values
  }

  /** The frames of all given pages of a range are. */
  ghost predicate GivenSafe(mem: Memory, tables: Tables, backed: map<nat, nat>, tot: nat, reserved: set<nat>,
                            first: nat, n: nat) {
    forall q: nat :: IsGiven(mem, tables, backed, first, n, q) ==>
      SafeFrame(Entry(mem, tables, q).frame, tot, reserved, tables, backed)
  }

  /** What was safe at the start is safe at page i. */
  lemma StillSafe(mem: Memory, tables: Tables, backed: map<nat, nat>, tables1: Tables, backed1: map<nat, nat>,
                  tot: nat, reserved: set<nat>, first: nat, i: nat, n: nat)
    requires GivenSafe(mem, tables, backed, tot, reserved, first, n)
    requires Extends(tables1, tables) && BackedOutside(backed, backed1, first, i)
    ensures IsGiven(mem, tables, backed, first, n, first + i) ==>
              SafeFrame(Entry(mem, tables, first + i).frame, tot, reserved, tables1, backed1)
  {
    hide Entry;
    var f := Entry(mem, tables, first + i).frame;
    if f in tables1.Values {
      var m :| m in tables1 && tables1[m] == f;
      assert tables[m] == f && tables[m] in tables.Values;
    }
    if f in backed1.Values {
      var q :| q in backed1 && backed1[q] == f;
      assert backed[q] == f && backed[q] in backed.Values;
    }
  }

  lemma NothingGiven(mem: Memory, tables: Tables, backed: map<nat, nat>, foreign: set<nat>, first: nat)
    ensures GivenIn(mem, tables, backed, first, 0) == {} && GivenBack(mem, tables, backed, foreign, first, 0)
  {
  }

  /** One more page, seen in the state in which the first i are freed. */
  lemma GivenStep(mem: Memory, tables: Tables, backed: map<nat, nat>, mem1: Memory, tables1: Tables,
                  backed1: map<nat, nat>, foreign: set<nat>, first: nat, i: nat, n: nat)
    requires RangeFreed(mem, tables, mem1, tables1, first, i) && BackedOutside(backed, backed1, first, i)
    requires i < n && Ordinary(first + i) && GivenBack(mem, tables, backed, foreign, first, i)
    ensures var e := Entry(mem1, tables1, first + i);
            var given := first + i !in backed1 && Present(e);
            && (given <==> IsGiven(mem, tables, backed, first, n, first + i)) && e == Entry(mem, tables, first + i)
            && GivenIn(mem, tables, backed, first, i + 1)
               == GivenIn(mem, tables, backed, first, i) + (if given then {e.frame} else {})
            && (GivenBack(mem, tables, backed, foreign, first, i + 1)
                <==> given ==> e.frame in foreign - GivenIn(mem, tables, backed, first, i))
    ensures GivenBack(mem, tables, backed, foreign, first, n) ==> GivenBack(mem, tables, backed, foreign, first, i + 1)
  {
    hide Entry, Walk;
    assert AgreeAt(mem, tables, mem1, tables1, first + i);
    GivenInStep(mem, tables, backed, first, i);
    GivenBackStep(mem, tables, backed, foreign, first, i);
    if GivenBack(mem, tables, backed, foreign, first, n) {
      GivenBackLess(mem, tables, backed, foreign, first, i + 1, n);
    }
  }

  lemma GivenInStep(mem: Memory, tables: Tables, backed: map<nat, nat>, first: nat, i: nat)
    ensures GivenIn(mem, tables, backed, first, i + 1)
            == GivenIn(mem, tables, backed, first, i)
               + if IsGiven(mem, tables, backed, first, i + 1, first + i) then {Entry(mem, tables, first + i).frame}
                 else {}
  {
    hide Entry;
    var all, less := GivenIn(mem, tables, backed, first, i + 1), GivenIn(mem, tables, backed, first, i);
    forall f | f in all
      ensures f !in less ==>
        IsGiven(mem, tables, backed, first, i + 1, first + i) && f == Entry(mem, tables, first + i).frame
    {
      var q: nat :| first <= q < first + (i + 1) && IsGiven(mem, tables, backed, first, i + 1, q)
                    && Entry(mem, tables, q).frame == f;
      assert q < first + i ==> IsGiven(mem, tables, backed, first, i, q);
    }
    forall f | f in less
      ensures f in all
    {
      var q: nat :| first <= q < first + i && IsGiven(mem, tables, backed, first, i, q)
                    && Entry(mem, tables, q).frame == f;
      assert IsGiven(mem, tables, backed, first, i + 1, q);
    }
  }

  lemma GivenBackStep(mem: Memory, tables: Tables, backed: map<nat, nat>, foreign: set<nat>, first: nat, i: nat)
    requires GivenBack(mem, tables, backed, foreign, first, i)
    ensures GivenBack(mem, tables, backed, foreign, first, i + 1)
       <==> IsGiven(mem, tables, backed, first, i + 1, first + i) ==>
              Entry(mem, tables, first + i).frame in foreign - GivenIn(mem, tables, backed, first, i)
  {
    hide Entry;
    assert forall q: nat :: IsGiven(mem, tables, backed, first, i + 1, q) <==>
                              || (q == first + i && IsGiven(mem, tables, backed, first, i + 1, first + i))
                              || IsGiven(mem, tables, backed, first, i, q);
    var last := Entry(mem, tables, first + i).frame;
    if last in GivenIn(mem, tables, backed, first, i) {
      var q: nat :| first <= q < first + i && IsGiven(mem, tables, backed, first, i, q)
                    && Entry(mem, tables, q).frame == last;
      assert IsGiven(mem, tables, backed, first, i + 1, q);
    }
  }

  lemma GivenBackLess(mem: Memory, tables: Tables, backed: map<nat, nat>, foreign: set<nat>, first: nat, i: nat, n: nat)
    requires i <= n && GivenBack(mem, tables, backed, foreign, first, n)
    ensures GivenBack(mem, tables, backed, foreign, first, i)
  {
    hide Entry;
    assert forall q: nat :: IsGiven(mem, tables, backed, first, i, q) ==> IsGiven(mem, tables, backed, first, n, q);
  }

  ghost predicate NoneBacked(backed: map<nat, nat>, first: nat, n: nat) {
    forall q: nat :: first <= q < first + n ==> q !in backed
  }

  lemma FreeRangeStart(mem: Memory, tables: Tables, backed: map<nat, nat>, first: nat, doFree: bool)
    ensures RangeFreed(mem, tables, mem, tables, first, 0) && Extends(tables, tables)
    ensures BackedOutside(backed, backed, first, 0) && Freeable(mem, tables, first, 0, doFree)
  {
    hide Entry, Walk;
  }

  /** Page i of the range is still as it was at the start. */
  lemma FreeRangeNext(mem: Memory, tables: Tables, backed: map<nat, nat>, mem1: Memory, tables1: Tables,
                      backed1: map<nat, nat>, first: nat, i: nat, n: nat, doFree: bool)
    requires RangeFreed(mem, tables, mem1, tables1, first, i) && BackedOutside(backed, backed1, first, i)
    requires i < n && OrdinaryRange(first, n)
    requires Freeable(mem, tables, first, i, doFree)
    ensures Ordinary(first + i) && (i + 1 < n ==> Ordinary(first + i + 1))
    ensures Entry(mem1, tables1, first + i) == Entry(mem, tables, first + i)
    ensures NoneBacked(backed, first, n) ==> first + i !in backed1
    ensures Freeable(mem, tables, first, i + 1, doFree) <==>
              Entry(mem, tables, first + i) != UNUSED && (doFree ==> !IsPending(Entry(mem, tables, first + i)))
    ensures !Freeable(mem, tables, first, i + 1, doFree) ==> !Freeable(mem, tables, first, n, doFree)
  {
    hide Entry, Walk, Ordinary;
    assert Ordinary(first + i);
    assert AgreeAt(mem, tables, mem1, tables1, first + i);
  }

  lemma RangeFreedStep(mem: Memory, tables: Tables, mem1: Memory, tables1: Tables, mem2: Memory, tables2: Tables,
                       first: nat, i: nat)
    requires RangeFreed(mem, tables, mem1, tables1, first, i) && Ordinary(first + i)
    requires OneChanged(mem1, tables1, mem2, tables2, first + i, UNUSED)
    requires Entry(mem1, tables1, first + i) != UNUSED
    ensures RangeFreed(mem, tables, mem2, tables2, first, i + 1)
  {
    hide Entry, Walk;
    forall q: nat | Ordinary(q)
      ensures if first <= q < first + (i + 1) then
                Entry(mem, tables, q) != UNUSED && Entry(mem2, tables2, q) == UNUSED && Walk(mem2, tables2, q) == Fault
              else AgreeAt(mem, tables, mem2, tables2, q)
    {
      if q != first + i {
        assert AgreeAt(mem1, tables1, mem2, tables2, q);
      } else {
        assert AgreeAt(mem, tables, mem1, tables1, q);
      }
    }
  }

  /** b1 is b without the pages of the range. */
  ghost predicate BackedOutside(b: map<nat, nat>, b1: map<nat, nat>, first: nat, n: nat) {
    && (forall q :: q in b1 <==> q in b && !(first <= q < first + n))
    && (forall q :: q in b1 ==> b1[q] == b[q])
  }

  /** The frames behind the provided pages of a range. */
  ghost function FramesIn(b: map<nat, nat>, first: nat, n: nat): set<nat> {
    set q | q in b && first <= q < first + n :: b[q]
  }

  lemma NoFramesIn(b: map<nat, nat>, first: nat, n: nat)
    ensures FramesIn(b, first, n) == {} <==> NoneBacked(b, first, n)
  {
    if !NoneBacked(b, first, n) {
      var q: nat :| first <= q < first + n && q in b;
      assert b[q] in FramesIn(b, first, n);
    }
  }

  lemma FramesInStep(b: map<nat, nat>, b1: map<nat, nat>, first: nat, i: nat)
    requires BackedOutside(b, b1, first, i)
    ensures FramesIn(b, first, i + 1)
         == FramesIn(b, first, i) + if first + i in b1 then {b1[first + i]} else {}
  {
    forall f
      ensures f in FramesIn(b, first, i + 1)
         <==> f in FramesIn(b, first, i) || (first + i in b1 && f == b1[first + i])
    {
      if first + i in b1 && f == b1[first + i] {
        assert b[first + i] == f;
      }
    }
  }

  lemma BackedOutsideStep(b: map<nat, nat>, b1: map<nat, nat>, b2: map<nat, nat>, first: nat, i: nat)
    requires BackedOutside(b, b1, first, i) && b2 == b1 - {first + i}
    ensures BackedOutside(b, b2, first, i + 1)
  {
  }

  // ----- translation -----

  /** vmm_translate: the frame bits of the entry plus the offset in a page of its level. */
  function Translation(m: Mapping, vaddr: nat): Option<nat> {
    match m
    case Fault => None
    case Page(level, e) =>
      var size := if level <= 1 then PAGE_SIZE else if level == 2 then 0x20_0000 else 0x4000_0000;
      Some(e.frame * PAGE_SIZE + vaddr % size)
  }

  /** The code agrees with the hardware exactly when a huge entry's frame is aligned to its
      page size. */
  lemma TranslationIsHardwareExactly(m: Mapping, vaddr: nat)
    requires m.Page? && 1 <= m.level <= 3
    ensures Translation(m, vaddr) == Some(HwFrame(m, PageOf(vaddr)).value * PAGE_SIZE + vaddr % PAGE_SIZE)
       <==> || m.level == 1
            || (m.level == 2 && m.e.frame % 512 == 0)
            || (m.level == 3 && m.e.frame % 0x4_0000 == 0)
  {
    var p := vaddr / 4096;
    assert vaddr == p * 4096 + vaddr % 4096;
    assert vaddr % 0x20_0000 == p % 512 * 4096 + vaddr % 4096 by { PageOffset(p, vaddr % 4096); }
    assert vaddr % 0x4000_0000 == p % 0x4_0000 * 4096 + vaddr % 4096 by { PageOffset(p, vaddr % 4096); }
    LowDigits(p);
  }

  lemma PageOffset(p: nat, off: nat)
    requires off < 4096
    ensures (p * 4096 + off) % 0x20_0000 == p % 512 * 4096 + off
    ensures (p * 4096 + off) % 0x4000_0000 == p % 0x4_0000 * 4096 + off
  {
    DivMod(p * 4096 + off, 0x20_0000, p / 512, p % 512 * 4096 + off);
    DivMod(p * 4096 + off, 0x4000_0000, p / 0x4_0000, p % 0x4_0000 * 4096 + off);
  }

  lemma LowDigits(p: nat)
    ensures p % NUM_PAGES % 512 == p % 512
    ensures p % NUM_PAGES % 0x4_0000 == p % 0x4_0000
  {
    var high, pn := p / 0x10_0000_0000, p % 0x10_0000_0000;
    assert p == (high * 0x800_0000 + pn / 512) * 512 + pn % 512;
    assert p == (high * 0x4_0000 + pn / 0x4_0000) * 0x4_0000 + pn % 0x4_0000;
  }

  /** After vmm_map_to every byte of the range translates to its place in the given frames. */
  lemma MappedTranslates(mem: Memory, tables: Tables, mem1: Memory, tables1: Tables, first: nat, n: nat,
                         frame: nat, flags: set<nat>, vaddr: nat)
    requires RangeMapped(mem, tables, mem1, tables1, first, n, ToFrames(frame, flags)) && OrdinaryRange(first, n)
    requires first <= PageOf(vaddr) < first + n
    ensures Translation(Walk(mem1, tables1, PageOf(vaddr)), vaddr)
         == Some((frame + (PageOf(vaddr) - first)) * PAGE_SIZE + vaddr % PAGE_SIZE)
    ensures Translation(Walk(mem, tables, PageOf(vaddr)), vaddr) == None
  {
    assert Ordinary(PageOf(vaddr));
  }

  /** All other addresses, those in huge pages included, translate as before. */
  lemma OthersTranslateAsBefore(mem: Memory, tables: Tables, mem1: Memory, tables1: Tables, first: nat, n: nat,
                                req: Request, vaddr: nat)
    requires RangeMapped(mem, tables, mem1, tables1, first, n, req)
    requires Ordinary(PageOf(vaddr)) && !(first <= PageOf(vaddr) < first + n)
    ensures Translation(Walk(mem1, tables1, PageOf(vaddr)), vaddr)
        == Translation(Walk(mem, tables, PageOf(vaddr)), vaddr)
  {
    assert AgreeAt(mem, tables, mem1, tables1, PageOf(vaddr));
  }

  lemma WalkNotAtRoot(mem: Memory, tables: Tables, pn: nat)
    requires Linked(mem, tables) && Ordinary(pn)
    ensures Walk(mem, tables, pn).Page? ==> Walk(mem, tables, pn).level <= 3
    ensures forall k :: 2 <= k <= 4 && NodeOn(pn, k) in tables ==>
      (IsTable(EntryOf(mem, tables, NodeOn(pn, k), Index(pn, k))) <==> NodeOn(pn, k - 1) in tables)
  {
    WalkIsDeepest(mem, tables, pn);
    PathEndsAtRoot(pn);
    forall k | 2 <= k <= 4 && NodeOn(pn, k) in tables
      ensures var e := EntryOf(mem, tables, NodeOn(pn, k), Index(pn, k));
              (IsTable(e) <==> NodeOn(pn, k - 1) in tables) && (k == 4 && Present(e) ==> IsTable(e))
    {
      ChildOnPath(pn, k);
      assert NodeLinked(mem, tables, NodeOn(pn, k));
      assert EntryLinked(mem, tables, NodeOn(pn, k), Index(pn, k));
    }
  }

  // ----- page faults -----

  /** The bits of the error code that the handler reads. */
  datatype FaultCode = FaultCode(present: bool, rsvd: bool, instr: bool)

  /** Page pn was waiting and is now present on a frame of its own. */
  ghost predicate FaultedIn(mem: Memory, mem1: Memory, tables: Tables, backed: map<nat, nat>, backed1: map<nat, nat>,
                            pn: nat, out: set<nat>) {
    && IsPending(Entry(mem, tables, pn))
    && pn in backed1 && backed1[pn] !in out && backed1 == backed[pn := backed1[pn]]
    && OneChanged(mem, tables, mem1, tables, pn,
                  Pte(backed1[pn], Entry(mem, tables, pn).flags + {PRESENT} - {TO_ALLOC}))
  }

  lemma FaultedWritable(mem: Memory, mem1: Memory, tables: Tables, backed: map<nat, nat>, backed1: map<nat, nat>,
                        pn: nat, out: set<nat>)
    requires FaultedIn(mem, mem1, tables, backed, backed1, pn, out) && Linked(mem1, tables) && Ordinary(pn)
    ensures Writable(mem1, tables, pn) <==> WRITABLE in Entry(mem, tables, pn).flags
  {
    hide Entry, Walk, Writable, Linked;
    WritableIsLeaf(mem1, tables, pn);
  }

  lemma PresentLeafWalks(mem: Memory, tables: Tables, pn: nat)
    requires Linked(mem, tables) && Ordinary(pn)
    ensures Present(Entry(mem, tables, pn)) ==> Walk(mem, tables, pn) != Fault
  {
    WalkIsDeepest(mem, tables, pn);
  }

  lemma FaultSummary(mem: Memory, tables: Tables, pn: nat, e: Pte, backed: map<nat, nat>)
    requires Tidy(mem, tables) && Ordinary(pn) && NodeOn(pn, 1) in tables && Leaves(mem, tables, backed)
    requires Present(e) && pn !in backed
    ensures HasTable(mem, tables, NodeOn(pn, 1))
    ensures var mem1 := Store(mem, tables[NodeOn(pn, 1)], Index(pn, 1), e);
            && Linked(mem1, tables) && Tidy(mem1, tables) && Leaves(mem1, tables, backed[pn := e.frame])
            && OneChanged(mem, tables, mem1, tables, pn, e)
  {
    hide Linked, Entry, Walk, HwWalk, OneChanged, TidyOff, Tidy;
    TidyIsTidyOff(mem, tables, pn);
    SetLeafTidyOff(mem, tables, pn, e);
    LeafWritten(mem, tables, pn, e);
    var mem1 := Store(mem, tables[NodeOn(pn, 1)], Index(pn, 1), e);
    LeavesOneChanged(mem, tables, mem1, tables, pn, e, backed);
    LeafIs(mem, tables, mem1, tables, pn, e);
    LeafMakesTidy(mem1, tables, pn);
  }

  lemma LeafIs(mem: Memory, tables: Tables, mem1: Memory, tables1: Tables, pn: nat, e: Pte)
    requires OneChanged(mem, tables, mem1, tables1, pn, e)
    ensures Entry(mem1, tables1, pn) == e && Walk(mem1, tables1, pn) == Result(1, e)
  {
  }

  // ----- results and requests -----

  /** Ok, or the assertion or panic that stops the kernel. */
  datatype Status =
    | Ok
    | BadAddress
    | OutOfFrames
    | ShiftTooFar  // the as-written allocator's undefined shift
    | HugeOnPath
    | InUse
    | NotMapped
    | FreePanic
    | Crash
    | PastHeap     // ksbrk's limit check passed on a wrapped sum

  /** VADDR_IS_VALID and the two assertions beside it. */
  predicate GoodAddress(v: nat) {
    v != 0 && v % PAGE_SIZE == 0 && ValidTop(v)
  }

  /** Bits 51 to 63 are all equal. */
  predicate ValidTop(v: nat) {
    v / 0x8_0000_0000_0000 % 0x2000 == 0 || v / 0x8_0000_0000_0000 % 0x2000 == 0x1fff
  }

  /** Bits 47 to 63 are all equal, as the hardware demands. */
  predicate Canonical(v: nat) {
    v < 0x8000_0000_0000 || 0xffff_8000_0000_0000 <= v < 0x1_0000_0000_0000_0000
  }

  /** Line 63 looks at bits 51 to 63 only: it means canonical exactly for addresses whose bits 47
      to 50 repeat bit 51. */
  lemma CheckMeansCanonicalExactly(v: nat)
    requires v < 0x1_0000_0000_0000_0000
    ensures Canonical(v) <==>
      && ValidTop(v)
      && v / 0x8000_0000_0000 % 0x20 == (if v / 0x8_0000_0000_0000 % 2 == 0 then 0 else 0x1f)
    ensures GoodAddress(v) <==> ValidTop(v) && v > 0 && exists page: nat :: v == page * 4096
  {
    if v % 4096 == 0 {
      assert v == v / 4096 * 4096;
    }
    var t, low := v / 0x8000_0000_0000, v % 0x8000_0000_0000;
    assert v == t * 0x8000_0000_0000 + low && t < 0x2_0000;
    assert v / 0x8_0000_0000_0000 == t / 16;
    assert t == t / 16 * 16 + t % 16;
  }

  /** All addresses at which the code edits tables are canonical. */
  lemma TableAddrsCanonical(n: Node)
    requires 1 <= n.level <= 4
    ensures Canonical(TableAddr(n))
  {
    hide TableAddr;
    TableAddrPath(n, 4);
    TableAddrTop(n);
    TopDigit(TableAddr(n));
  }

  lemma TableAddrTop(n: Node)
    requires n.level <= 4
    ensures TableAddr(n) / 0x1_0000_0000_0000 == 0xffff
    decreases 4 - n.level
  {
    if n.level < 4 {
      TableAddrDigits(Parent(n), 1);
      PtChildTop(TableAddr(Parent(n)), n.id % ENTRIES);
    }
  }

  lemma PtChildTop(parent: nat, idx: nat)
    requires parent % PAGE_SIZE == 0 && idx < ENTRIES
    ensures PtChild(parent, idx) / 0x1_0000_0000_0000 == 0xffff
  {
    var p := parent / 4096;
    assert parent * 512 == p * 0x20_0000;
    TableBits(p);
  }

  lemma TopDigit(v: nat)
    requires Index(PageOf(v), 4) == SELF && v / 0x1_0000_0000_0000 == 0xffff
    ensures Canonical(v)
  {
    IndexMacros(v);
    assert v / 0x80_0000_0000 % 0x200 == 510;
  }

  /** An address that passes the check although the hardware refuses it. */
  lemma CheckPassesNonCanonical()
    ensures GoodAddress(0x1_0000_0000_1000) && !Canonical(0x1_0000_0000_1000)
  {
  }

  /** Flags are entry bits outside the address field. */
  predicate IsFlags(flags: set<nat>) {
    forall b :: b in flags ==> b < 12 || 52 <= b < 64
  }

  const KRNL_HEAP_START := 0xffff_8000_0000_0000
  const KRNL_HEAP_END := 0xffff_8100_0000_0000

  function FreshMemory(root: nat): Memory {
    map[root := ZeroPage()[SELF := Pte(root, {PRESENT, WRITABLE})]]
  }

  lemma FreshTables(mem: Memory, tables: Tables, root: nat)
    requires tables == map[ROOT := root]
    requires mem == FreshMemory(root)
    ensures Tidy(mem, tables) && Linked(mem, tables) && Leaves(mem, tables, map[])
    ensures forall pn :: Ordinary(pn) ==> Entry(mem, tables, pn) == UNUSED && Walk(mem, tables, pn) == Fault
  {
    forall i | 0 <= i < ENTRIES && i != SELF
      ensures EntryLinked(mem, tables, ROOT, i)
    {
    }
    assert NodeLinked(mem, tables, ROOT);
    forall pn | Ordinary(pn)
      ensures Entry(mem, tables, pn) == UNUSED && Walk(mem, tables, pn) == Fault
    {
      WalkIsDeepest(mem, tables, pn);
      PathEndsAtRoot(pn);
    }
  }

  lemma AlignedSum(a: int, b: int)
    requires a % PAGE_SIZE == 0 && b % PAGE_SIZE == 0
    ensures (a + b) % PAGE_SIZE == 0 && (a - b) % PAGE_SIZE == 0
    ensures b / PAGE_SIZE * PAGE_SIZE == b && -b / PAGE_SIZE * PAGE_SIZE == -b
  {
    assert a == a / 4096 * 4096 && b == b / 4096 * 4096;
  }

  /** The heap lies in PML4 slots 256 and 257. */
  lemma HeapRange(v: nat, n: nat)
    requires v % PAGE_SIZE == 0 && KRNL_HEAP_START <= v && v + n * PAGE_SIZE <= KRNL_HEAP_END
    ensures GoodAddress(v) && OrdinaryRange(PageOf(v), n)
  {
    var p := v / 4096;
    assert 0xf_fff8_0000_0000 <= p && p + n <= 0xf_fff8_1000_0000;
    assert p % NUM_PAGES == p - 0xf_fff0_0000_0000;
    forall q: nat | PageOf(v) <= q < PageOf(v) + n
      ensures Ordinary(q)
    {
      assert Up(q, 1) == q / 512;
      assert Up(q, 2) == q / 512 / 512;
      assert Up(q, 3) == q / 512 / 512 / 512;
    }
  }

  lemma FreshOwned(out: set<nat>, root: nat)
    requires root in out
    ensures Owned(out, out - {root}, map[ROOT := root], map[])
  {
    var tables: Tables := map[ROOT := root];
    assert tables.Values == {root} by { assert tables[ROOT] == root; }
  }

  class AddressSpace {
    const rev: Revision
    const root: nat
    const pm: Bitmap.FrameAllocator
    var mem: Memory
    var brk: nat
    ghost var tables: Tables
    ghost var backed: map<nat, nat>
    ghost var foreign: set<nat>

    /** What was in use before any frame was handed out; the address space gives none of it back. */
    ghost const reserved: set<nat>

    ghost predicate Allocator()
      reads pm, pm.bm0, pm.bm1
    {
      && pm.Valid() && pm.base == 0 && pm.totBlk <= 0x100_0000_0000
      && PAGE_SIZE <= pm.fastStart && pm.fastStart % PAGE_SIZE == 0
      && pm.CounterFresh() && pm.reserved == reserved
    }

    /** A status that blames the frame allocator is right: it refuses at this moment, and then no
        word of its window is entirely free, or its shift is undefined. */
    ghost predicate Blames(st: Status)
      reads pm, pm.bm0, pm.bm1
    {
      var r := Bitmap.AllocOutcome(rev, pm.bm0[..], pm.bm1[..], 0, pm.totBlk, pm.usedBlk, pm.fastStart, pm.fastEnd);
      && (st == OutOfFrames ==> r == Bitmap.Invalid && Bitmap.NoEmptyWord(pm.bm0[..], pm.fastStart, pm.fastEnd))
      && (st == ShiftTooFar ==> r == Bitmap.UndefinedShift)
    }

    /** Everything but the emptiness of tables. */
    ghost predicate Core()
      reads `mem, `tables, `backed, `foreign, pm, pm.bm0, pm.bm1
    {
      && Allocator()
      && Linked(mem, tables) && tables[ROOT] == root
      && Owned(pm.outstanding, foreign, tables, backed)
      && Leaves(mem, tables, backed)
    }

    ghost predicate Valid()
      reads `mem, `tables, `backed, `foreign, pm, pm.bm0, pm.bm1
    {
      Core() && Tidy(mem, tables)
    }

    /** _setup_new_pml4, once its frame was allocated, and the switch to the new PML4: a zeroed
        table whose slot 510 points to itself. */
    constructor (rev: Revision, pm: Bitmap.FrameAllocator, root: nat)
      requires pm.Valid() && pm.base == 0 && pm.totBlk <= 0x100_0000_0000
      requires PAGE_SIZE <= pm.fastStart && pm.fastStart % PAGE_SIZE == 0 && pm.CounterFresh()
      requires root in pm.outstanding
      ensures Valid() && this.pm == pm && this.root == root && this.rev == rev
      ensures brk == KRNL_HEAP_START && backed == map[] && tables == map[ROOT := root]
      ensures foreign == pm.outstanding - {root} && reserved == pm.reserved
      ensures forall pn :: Ordinary(pn) ==> Entry(mem, tables, pn) == UNUSED && Walk(mem, tables, pn) == Fault
    {
      hide Tidy, Linked, Owned, Leaves, Entry, Walk, FreshMemory, Bitmap.FrameAllocator.Valid;
      this.rev, this.pm, this.root, reserved := rev, pm, root, pm.reserved;
      mem := FreshMemory(root);
      brk := KRNL_HEAP_START;
      tables, backed, foreign := map[ROOT := root], map[], pm.outstanding - {root};
      new;
      FreshTables(mem, tables, root);
      FreshOwned(pm.outstanding, root);
    }

    // ----- reading and writing tables through the self-map -----

    /** tab->e[i] for a live table. */
    method Load(tab: nat, i: nat, ghost n: Node) returns (e: Pte)
      requires Linked(mem, tables) && tables[ROOT] == root
      requires n in tables && tab == TableAddr(n) && i < ENTRIES
      ensures e == EntryOf(mem, tables, n, i) && HasTable(mem, tables, n)
    {
      SelfMapReachesTables(mem, tables, n);
      assert NodeLinked(mem, tables, n);
      var f := HwWalk(mem, root, PageOf(tab), 4).e.frame;
      e := mem[f][i];
    }

    /** tab->e[i] = e for a live table. */
    method StoreAt(tab: nat, i: nat, e: Pte, ghost n: Node)
      requires Linked(mem, tables) && tables[ROOT] == root
      requires n in tables && tab == TableAddr(n) && i < ENTRIES
      modifies `mem
      ensures old(HasTable(mem, tables, n)) && mem == Store(old(mem), tables[n], i, e)
    {
      SelfMapReachesTables(mem, tables, n);
      assert NodeLinked(mem, tables, n);
      var f := HwWalk(mem, root, PageOf(tab), 4).e.frame;
      mem := mem[f := mem[f][i := e]];
    }

    /** memset(tab, 0, PAGE_SIZE) for a table that was just linked in frame f. */
    method ZeroTable(tab: nat, ghost n: Node, ghost mz: Memory)
      requires Linked(mz, tables) && tables[ROOT] == root && n in tables && n.level < 4
      requires SameButAt(mem, mz, tables, n) && tab == TableAddr(n)
      modifies `mem
      ensures mem == old(mem)[tables[n] := ZeroPage()]
    {
      SelfMapReachesFrame(mem, mz, tables, n);
      var f := HwWalk(mem, root, PageOf(tab), 4).e.frame;
      mem := mem[f := ZeroPage()];
    }

    // ----- taking frames from the allocator and giving them back -----

    /** _PMMGR->alloc() and the assertion on its answer. */
    method TakeFrame() returns (st: Status, f: nat)
      requires Allocator()
      modifies pm`outstanding, pm.bm0, pm.bm1
      ensures Allocator() && Blames(st)
      ensures st == Ok || st == OutOfFrames || st == ShiftTooFar
      ensures st == Ok ==> f !in old(pm.outstanding) && pm.outstanding == old(pm.outstanding) + {f}
      ensures st != Ok ==> pm.outstanding == old(pm.outstanding)
    {
      hide Bitmap.FrameAllocator.Valid, Bitmap.FrameAllocator.Used, Bitmap.AllocOutcome, Bitmap.SetIn,
           Bitmap.NoEmptyWord;
      var r := pm.Alloc(rev);
      match r {
        case Frame(addr) =>
          assert pm.HandedOut(Bitmap.FrameOf(0, addr), old(pm.Used()), old(pm.outstanding));
          return Ok, addr / PAGE_SIZE;
        case Invalid =>
          return OutOfFrames, 0;
        case UndefinedShift =>
          return ShiftTooFar, 0;
      }
    }

    /** _PMMGR->free(frame << 12): frames handed out can be given back, others, such as frame 0, cannot. */
    method GiveFrame(f: nat) returns (ok: bool)
      requires Allocator() && (f == 0 || f in pm.outstanding || (f < pm.totBlk && f !in reserved))
      modifies pm`outstanding, pm`reserved, pm.bm0, pm.bm1
      ensures Allocator()
      ensures ok <==> f in old(pm.outstanding)
      ensures f == 0 ==> !ok
      ensures ok ==> pm.outstanding == old(pm.outstanding) - {f}
      ensures !ok ==> pm.outstanding == old(pm.outstanding)
    {
      hide Bitmap.FrameAllocator.Valid, Bitmap.FrameAllocator.Used, Bitmap.UnsetIn;
      Returnable(f);
      if f == 0 && pm.totBlk == 0 {
        return false;
      }
      assert f * PAGE_SIZE / PAGE_SIZE == f;
      ok := pm.Free(f * PAGE_SIZE);
    }

    lemma Returnable(f: nat)
      requires Allocator() && (f == 0 || f in pm.outstanding || (f < pm.totBlk && f !in reserved))
      ensures f in pm.outstanding ==>
        && f < pm.totBlk && PageAligned(f * PAGE_SIZE)
        && pm.fastStart <= f * PAGE_SIZE < pm.fastEnd && f in pm.Used()
      ensures f == 0 ==> f * PAGE_SIZE < pm.fastStart && f !in pm.outstanding
      ensures f != 0 && f !in pm.outstanding ==> f !in pm.Used()
    {
      hide Bitmap.FrameAllocator.Levels, Bitmap.FrameAllocator.Used;
      if f in pm.outstanding {
        Bitmap.WindowPassesFreeChecks(f, pm.fastStart, pm.fastEnd);
      }
    }

    // ----- _pt_child and _pt_create -----

    /** _pt_child: the address of the child table, or None when absent or huge. */
    method PtChildOf(tab: nat, i: nat, ghost n: Node) returns (child: Option<nat>)
      requires Linked(mem, tables) && tables[ROOT] == root
      requires n in tables && tab == TableAddr(n) && i < ENTRIES && n.level > 1 && Plain(n, i)
      ensures child.Some? <==> Child(n, i) in tables
      ensures child.Some? ==> child.value == TableAddr(Child(n, i))
    {
      var e := Load(tab, i, n);
      assert NodeLinked(mem, tables, n) && EntryLinked(mem, tables, n, i);
      ParentOfChild(n, i);
      child := if IsTable(e) then Some(PtChild(tab, i)) else None;
    }

    /** What a present entry on the path of page pn stands for. */
    lemma PresentChild(pn: nat, level: nat, e: Pte)
      requires Linked(mem, tables) && Ordinary(pn) && 1 < level <= 4 && NodeOn(pn, level) in tables
      requires e == EntryOf(mem, tables, NodeOn(pn, level), Index(pn, level)) && Present(e)
      ensures HUGE in e.flags ==> Walk(mem, tables, pn).Page? && Walk(mem, tables, pn).level == level
      ensures HUGE !in e.flags ==> NodeOn(pn, level - 1) in tables
      ensures HUGE !in e.flags ==>
        PtChild(TableAddr(NodeOn(pn, level)), Index(pn, level)) == TableAddr(NodeOn(pn, level - 1))
    {
      hide HwWalk;
      ChildOnPath(pn, level);
      assert NodeLinked(mem, tables, NodeOn(pn, level))
          && EntryLinked(mem, tables, NodeOn(pn, level), Index(pn, level));
      if HUGE in e.flags {
        WalkIsDeepest(mem, tables, pn);
      }
    }

    /** _pt_create on the path of page pn: the child table, created when there is none. */
    method PtCreate(tab: nat, level: nat, pn: nat) returns (child: nat, st: Status)
      requires Core() && TidyOff(mem, tables, pn) && Ordinary(pn)
      requires 1 < level <= 4 && NodeOn(pn, level) in tables && tab == TableAddr(NodeOn(pn, level))
      modifies `mem, `tables, pm`outstanding, pm.bm0, pm.bm1
      ensures st == Ok || st == HugeOnPath || st == OutOfFrames || st == ShiftTooFar
      ensures Blames(st)
      ensures st == Ok ==> Core() && TidyOff(mem, tables, pn)
      ensures st == Ok ==> NodeOn(pn, level - 1) in tables && child == TableAddr(NodeOn(pn, level - 1))
      ensures st == Ok ==> SameView(old(mem), old(tables), mem, tables) && Extends(old(tables), tables)
      ensures st == HugeOnPath ==> Walk(mem, tables, pn).Page? && Walk(mem, tables, pn).level == level
      ensures st == HugeOnPath ==> mem == old(mem) && tables == old(tables)
    {
      hide Owned, HwWalk, Walk, TableAddr, PtChild, Bitmap.FrameAllocator.Valid, Bitmap.AllocOutcome;
      child := 0;
      ghost var n := NodeOn(pn, level);
      var i := Index(pn, level);
      PathEndsAtRoot(pn);
      ChildOnPath(pn, level);
      var e := Load(tab, i, n);
      assert NodeLinked(mem, tables, n) && EntryLinked(mem, tables, n, i);
      if Present(e) {
        PresentChild(pn, level, e);
        if HUGE in e.flags {
          return child, HugeOnPath;
        }
        SameViewRefl(mem, tables);
        return PtChild(tab, i), Ok;
      }
      child, st := CreateTable(tab, i, n, pn);
    }

    /** Lines 94-100. */
    method CreateTable(tab: nat, i: nat, ghost n: Node, ghost pn: nat) returns (child: nat, st: Status)
      requires Core() && TidyOff(mem, tables, pn) && Ordinary(pn)
      requires n in tables && 1 < n.level <= 4 && n == NodeOn(pn, n.level) && i == Index(pn, n.level)
      requires tab == TableAddr(n) && Plain(n, i) && EntryOf(mem, tables, n, i) == UNUSED
      modifies `mem, `tables, pm`outstanding, pm.bm0, pm.bm1
      ensures st == Ok || st == OutOfFrames || st == ShiftTooFar
      ensures Blames(st)
      ensures st == Ok ==> Core() && TidyOff(mem, tables, pn)
      ensures st == Ok ==> Child(n, i) in tables && child == TableAddr(Child(n, i))
      ensures st == Ok ==> SameView(old(mem), old(tables), mem, tables) && Extends(old(tables), tables)
    {
      hide Owned, Linked, Leaves, TidyOff, SameView, Extends, Entry, Walk, HwWalk, AddMem, Allocator, SameButAt, Blames;
      child := 0;
      OwnedTables(pm.outstanding, foreign, tables, backed);
      var f;
      st, f := TakeFrame();
      if st != Ok {
        return child, st;
      }
      AddSummary(mem, tables, n, i, f, pn, backed);
      OwnTable(old(pm.outstanding), foreign, tables, backed, Child(n, i), f);
      ghost var mz := AddMem(mem, tables, n, i, f);
      StoreAt(tab, i, Pte(f, {PRESENT, WRITABLE}), n);
      tables := tables[Child(n, i) := f];
      child := PtChild(tab, i);
      ParentOfChild(n, i);
      ZeroTable(child, Child(n, i), mz);
      OkBlamesNobody();
      return child, Ok;
    }

    lemma OkBlamesNobody()
      ensures forall st :: st != OutOfFrames && st != ShiftTooFar ==> Blames(st)
    {
    }

    // ----- mapping -----

    /** The tables down to the page table of page pn, created where they are missing. */
    method CreatePath(pn: nat) returns (pt: nat, st: Status)
      requires Valid() && Ordinary(pn)
      modifies `mem, `tables, pm`outstanding, pm.bm0, pm.bm1
      ensures st == Ok || st == HugeOnPath || st == OutOfFrames || st == ShiftTooFar
      ensures Blames(st)
      ensures st == Ok ==> Core() && TidyOff(mem, tables, pn)
      ensures st == Ok ==> NodeOn(pn, 1) in tables && pt == TableAddr(NodeOn(pn, 1))
      ensures st == Ok ==> SameView(old(mem), old(tables), mem, tables) && Extends(old(tables), tables)
      ensures st == HugeOnPath ==> old(Walk(mem, tables, pn)).Page? && old(Walk(mem, tables, pn)).level > 1
    {
      OkBlamesNobody();
      hide Owned, Leaves, TidyOff, SameView, Extends, Entry, Walk, HwWalk, Allocator, Linked, Core, Blames;
      TidyIsTidyOff(mem, tables, pn);
      PathEndsAtRoot(pn);
      RootLive(mem, tables);
      SameViewRefl(mem, tables);
      pt := PML4_VADDR;
      st := Ok;
      var level := 4;
      while level > 1 && st == Ok
        invariant 1 <= level <= 4
        invariant st == Ok ==> Core() && TidyOff(mem, tables, pn)
        invariant st == Ok ==> NodeOn(pn, level) in tables && pt == TableAddr(NodeOn(pn, level))
        invariant st == Ok ==> SameView(old(mem), old(tables), mem, tables) && Extends(old(tables), tables)
        invariant Blames(st)
        invariant st == Ok || st == OutOfFrames || st == ShiftTooFar
                  || (st == HugeOnPath && old(Walk(mem, tables, pn)).Page? && old(Walk(mem, tables, pn)).level > 1)
        decreases level, if st == Ok then 1 else 0
      {
        ghost var mem1, tables1 := mem, tables;
        pt, st := PtCreate(pt, level, pn);
        if st == Ok {
          SameViewTrans(old(mem), old(tables), mem1, tables1, mem, tables);
          level := level - 1;
        } else if st == HugeOnPath {
          SameViewAt(old(mem), old(tables), mem1, tables1, pn);
        }
      }
    }

    /** The body of the loops of vmm_map and vmm_map_to: page pn gets leaf e. */
    method MapPage(pn: nat, e: Pte) returns (st: Status)
      requires Valid() && Ordinary(pn)
      requires Present(e) || IsPending(e)
      modifies `mem, `tables, pm`outstanding, pm.bm0, pm.bm1
      ensures st == Ok || st == HugeOnPath || st == OutOfFrames || st == ShiftTooFar || st == InUse
      ensures Blames(st)
      ensures st == Ok ==> Valid() && old(Entry(mem, tables, pn)) == UNUSED && old(Walk(mem, tables, pn)) == Fault
      ensures st == Ok ==> OneChanged(old(mem), old(tables), mem, tables, pn, e) && Extends(old(tables), tables)
      ensures st == InUse ==> old(Entry(mem, tables, pn)) != UNUSED
      ensures st == HugeOnPath ==> old(Walk(mem, tables, pn)).Page? && old(Walk(mem, tables, pn)).level > 1
    {
      hide Owned, Leaves, Tidy, TidyOff, SameView, OneChanged, Extends, Walk, HwWalk, Allocator, Linked, Blames;
      var pt;
      pt, st := CreatePath(pn);
      if st != Ok {
        return;
      }
      SameViewAt(old(mem), old(tables), mem, tables, pn);
      var leaf := Load(pt, Index(pn, 1), NodeOn(pn, 1));
      OkBlamesNobody();
      if leaf != UNUSED {
        return InUse;
      }
      UnusedLeafFaults(mem, tables, pn);
      LeafSummary(old(mem), old(tables), mem, tables, pn, e, backed);
      StoreAt(pt, Index(pn, 1), e, NodeOn(pn, 1));
    }

    // ----- unmapping and pruning -----

    /** The loops that look for an entry in use. */
    method IsEmpty(tab: nat, ghost n: Node) returns (empty: bool)
      requires Linked(mem, tables) && tables[ROOT] == root && n in tables && tab == TableAddr(n)
      ensures empty <==> !NonEmpty(mem, tables, n)
    {
      hide Linked, HwWalk;
      var j := 0;
      while j < ENTRIES
        invariant 0 <= j <= ENTRIES
        invariant forall k :: 0 <= k < j ==> EntryOf(mem, tables, n, k) == UNUSED
      {
        var e := Load(tab, j, n);
        if e != UNUSED {
          return false;
        }
        j := j + 1;
      }
      return true;
    }

    /** Lines 131-151, and the same again for the levels above: frees the table below `tab` on
        the path of page pn if it has become empty. */
    method Prune(child: nat, tab: nat, level: nat, pn: nat) returns (freed: bool)
      requires Core() && Ordinary(pn) && 1 < level <= 4
      requires TidyBut(mem, tables, pn, level - 1)
      requires NodeOn(pn, level) in tables && tab == TableAddr(NodeOn(pn, level))
      requires NodeOn(pn, level - 1) in tables && child == TableAddr(NodeOn(pn, level - 1))
      modifies `mem, `tables, pm`outstanding, pm`reserved, pm.bm0, pm.bm1
      ensures Core()
      ensures freed ==> TidyBut(mem, tables, pn, level)
      ensures !freed ==> Tidy(mem, tables)
      ensures SameView(old(mem), old(tables), mem, tables) && Extends(tables, old(tables))
      ensures forall k :: level <= k <= 4 && NodeOn(pn, k) in old(tables) ==> NodeOn(pn, k) in tables
    {
      hide Owned, Linked, Leaves, SameView, Extends, Entry, Walk, HwWalk, Allocator, TidyBut, NonEmpty;
      ghost var n := NodeOn(pn, level);
      var i := Index(pn, level);
      var empty := IsEmpty(child, NodeOn(pn, level - 1));
      if !empty {
        TidyButOne(mem, tables, pn, level - 1);
        SameViewRefl(mem, tables);
        return false;
      }
      ChildOnPath(pn, level);
      var e := Load(tab, i, n);
      PruneSummary(mem, tables, pn, level, backed);
      OwnedTables(pm.outstanding, foreign, tables, backed);
      DisownTable(pm.outstanding, foreign, tables, backed, NodeOn(pn, level - 1));
      var ok := GiveFrame(e.frame);
      StoreAt(tab, i, UNUSED, n);
      tables := tables - {NodeOn(pn, level - 1)};
      return true;
    }

    /** The tables on the path of page pn, as _do_free looks them up, and its leaf. */
    method FindLeaf(pn: nat) returns (pdp: nat, pd: nat, pt: nat, e: Pte)
      requires Linked(mem, tables) && tables[ROOT] == root && Ordinary(pn)
      ensures e == Entry(mem, tables, pn)
      ensures e != UNUSED ==>
        && NodeOn(pn, 1) in tables && NodeOn(pn, 2) in tables && NodeOn(pn, 3) in tables
        && pdp == TableAddr(NodeOn(pn, 3)) && pd == TableAddr(NodeOn(pn, 2)) && pt == TableAddr(NodeOn(pn, 1))
    {
      hide HwWalk;
      pdp, pd, pt := 0, 0, 0;
      PathEndsAtRoot(pn);
      NoLeafWithoutPath(mem, tables, pn);
      ChildOnPath(pn, 4);
      ChildOnPath(pn, 3);
      ChildOnPath(pn, 2);
      hide Linked;
      var c3 := PtChildOf(PML4_VADDR, Index(pn, 4), ROOT);
      if c3.None? { return pdp, pd, pt, UNUSED; }
      var c2 := PtChildOf(c3.value, Index(pn, 3), NodeOn(pn, 3));
      if c2.None? { return pdp, pd, pt, UNUSED; }
      var c1 := PtChildOf(c2.value, Index(pn, 2), NodeOn(pn, 2));
      if c1.None? { return pdp, pd, pt, UNUSED; }
      pdp, pd, pt := c3.value, c2.value, c1.value;
      e := Load(pt, Index(pn, 1), NodeOn(pn, 1));
    }

    ghost predicate Safe(f: nat)
      reads `tables, `backed, pm
    {
      SafeFrame(f, pm.totBlk, reserved, tables, backed)
    }

    /** The pages of the range may be handed to vmm_free. */
    ghost predicate MayFree(first: nat, n: nat)
      reads `mem, `tables, `backed, pm
    {
      GivenSafe(mem, tables, backed, pm.totBlk, reserved, first, n)
    }

    /** vmm_free panics at a page that waits, and at a given frame that is free. */
    ghost predicate FreeFails(pn: nat, doFree: bool, e: Pte)
      reads `backed, `foreign
    {
      doFree && (IsPending(e) || (pn !in backed && Present(e) && e.frame !in foreign))
    }

    /** Whose frame it is afterwards: vmm_free returns it, vmm_unmap leaves a provided one to nobody. */
    ghost function ForeignAfter(pn: nat, doFree: bool, e: Pte): set<nat>
      reads `backed, `foreign
    {
      if doFree then (if pn in backed then foreign else foreign - {e.frame})
      else if pn in backed then foreign + {backed[pn]}
      else foreign
    }

    lemma UnusedIs(pn: nat, doFree: bool)
      ensures !FreeFails(pn, doFree, UNUSED)
    {
    }

    /** A safe frame was handed out exactly if it is somebody else's. */
    lemma FrameKinds(pn: nat, f: nat)
      requires Allocator() && Owned(pm.outstanding, foreign, tables, backed)
      ensures Safe(f) ==> (f in pm.outstanding <==> f in foreign)
      ensures pn in backed && f == backed[pn] ==> f in pm.outstanding
    {
      hide Allocator;
      if pn in backed {
        assert backed[pn] in backed.Values;
      }
    }

    /** The body of the loop of _do_free. */
    method FreePage(pn: nat, doFree: bool) returns (st: Status)
      requires Valid() && Ordinary(pn)
      requires doFree && pn !in backed && Present(Entry(mem, tables, pn)) ==> Safe(Entry(mem, tables, pn).frame)
      modifies `mem, `tables, `backed, `foreign, pm`outstanding, pm`reserved, pm.bm0, pm.bm1
      ensures st == Ok || st == NotMapped || st == FreePanic
      ensures st == NotMapped <==> old(Entry(mem, tables, pn)) == UNUSED
      ensures st == FreePanic <==> old(FreeFails(pn, doFree, Entry(mem, tables, pn)))
      ensures st == Ok ==> Valid()
      ensures st == Ok ==> OneChanged(old(mem), old(tables), mem, tables, pn, UNUSED) && Extends(tables, old(tables))
      ensures st == Ok ==> backed == old(backed) - {pn}
      ensures st == Ok && doFree ==> pn in old(backed) || old(Present(Entry(mem, tables, pn)))
      ensures st == Ok ==> foreign == old(ForeignAfter(pn, doFree, Entry(mem, tables, pn)))
    {
      hide Owned, Linked, SameView, OneChanged, Extends, Entry, Walk, HwWalk, Allocator, Tidy, TidyBut;
      var pdp, pd, pt, e := FindLeaf(pn);
      LeafKinds(mem, tables, backed, pn);
      if e == UNUSED {
        UnusedIs(pn, doFree);
        return NotMapped;
      }
      ClearSummary(mem, tables, pn, backed);
      st := DropFrame(pn, doFree, e);
      if st != Ok {
        return;
      }
      StoreAt(pt, Index(pn, 1), UNUSED, NodeOn(pn, 1));
      ghost var mem1 := mem;
      PruneAll(pt, pd, pdp, pn);
      OneChangedBefore(old(mem), old(tables), mem1, old(tables), mem, tables, pn, UNUSED);
      return Ok;
    }

    /** Lines 123-126, and who owns the frame of page pn afterwards. */
    method DropFrame(pn: nat, doFree: bool, e: Pte) returns (st: Status)
      requires Allocator() && Owned(pm.outstanding, foreign, tables, backed)
      requires pn in backed ==> Present(e) && e.frame == backed[pn]
      requires doFree && pn !in backed ==> IsPending(e) || (Present(e) && Safe(e.frame))
      modifies `backed, `foreign, pm`outstanding, pm`reserved, pm.bm0, pm.bm1
      ensures Allocator()
      ensures st == if old(FreeFails(pn, doFree, e)) then FreePanic else Ok
      ensures st == Ok ==> Owned(pm.outstanding, foreign, tables, backed)
      ensures st == Ok ==> backed == old(backed) - {pn}
      ensures st == Ok ==> foreign == old(ForeignAfter(pn, doFree, e))
    {
      hide Owned, Allocator;
      OwnedTables(pm.outstanding, foreign, tables, backed);
      if doFree {
        FrameKinds(pn, e.frame);
        var ok := GiveFrame(e.frame);
        if !ok {
          return FreePanic;
        }
        if pn in backed {
          DisownPage(old(pm.outstanding), foreign, tables, backed, pn);
        } else {
          ReturnForeign(old(pm.outstanding), foreign, tables, backed, e.frame);
          foreign := foreign - {e.frame};
          assert backed - {pn} == backed;
        }
      } else if pn in backed {
        AbandonPage(pm.outstanding, foreign, tables, backed, pn);
        foreign := foreign + {backed[pn]};
      } else {
        assert backed - {pn} == backed;
      }
      backed := backed - {pn};
      return Ok;
    }

    /** Lines 131-173: frees the tables on the path of pn that have become empty, lowest first. */
    method PruneAll(pt: nat, pd: nat, pdp: nat, pn: nat)
      requires Core() && TidyBut(mem, tables, pn, 1) && Ordinary(pn)
      requires NodeOn(pn, 1) in tables && NodeOn(pn, 2) in tables && NodeOn(pn, 3) in tables
      requires pdp == TableAddr(NodeOn(pn, 3)) && pd == TableAddr(NodeOn(pn, 2)) && pt == TableAddr(NodeOn(pn, 1))
      modifies `mem, `tables, pm`outstanding, pm`reserved, pm.bm0, pm.bm1
      ensures Valid()
      ensures SameView(old(mem), old(tables), mem, tables) && Extends(tables, old(tables))
    {
      hide Owned, Linked, SameView, Extends, Entry, Walk, HwWalk, Allocator, Tidy, TidyBut, Leaves, Core;
      PathEndsAtRoot(pn);
      CoreRoot();
      var freed := Prune(pt, pd, 2, pn);
      if !freed { return; }
      ghost var mem1, tables1 := mem, tables;
      freed := Prune(pd, pdp, 3, pn);
      SameViewShrink(old(mem), old(tables), mem1, tables1, mem, tables);
      if !freed { return; }
      ghost var mem2, tables2 := mem, tables;
      freed := Prune(pdp, PML4_VADDR, 4, pn);
      SameViewShrink(old(mem), old(tables), mem2, tables2, mem, tables);
      if freed {
        TidyButOne(mem, tables, pn, 4);
      }
    }

    lemma CoreRoot()
      requires Core()
      ensures ROOT in tables
    {
    }

    // ----- ranges of pages -----

    /** The loops of vmm_map and vmm_map_to. */
    method MapRange(vaddr: nat, n: nat, req: Request) returns (st: Status)
      requires Valid() && OrdinaryRange(PageOf(vaddr), n)
      modifies `mem, `tables, pm`outstanding, pm.bm0, pm.bm1
      ensures st != BadAddress && Explained(st, old(mem), old(tables), PageOf(vaddr), n) && Blames(st)
      ensures st == Ok ==> Valid() && Extends(old(tables), tables)
      ensures st == Ok ==> RangeMapped(old(mem), old(tables), mem, tables, PageOf(vaddr), n, req)
    {
      OkBlamesNobody();
      hide Valid, Extends, OneChanged, RangeMapped, Entry, Walk, PageOf, Ordinary, Blames;
      var v: nat := vaddr;
      var i: nat := 0;
      ghost var first := PageOf(vaddr);
      SameViewRefl(mem, tables);
      RangeMappedEmpty(mem, tables, first, req);
      st := Ok;
      while i < n
        invariant 0 <= i <= n && st == Ok && (i < n ==> PageOf(v) == first + i)
        invariant Valid() && Extends(old(tables), tables) && Blames(st)
        invariant RangeMapped(old(mem), old(tables), mem, tables, first, i, req)
      {
        ghost var mem1, tables1 := mem, tables;
        RangeMappedOutside(old(mem), old(tables), mem, tables, first, i, req, first + i);
        st := MapPage(PageOf(v), Leaf(req, i));
        if st != Ok {
          return;
        }
        RangeMappedStep(old(mem), old(tables), mem1, tables1, mem, tables, first, i, req);
        ExtendsTrans(old(tables), tables1, tables);
        if i + 1 < n {
          NextPage(v);
        }
        v := v + PAGE_SIZE;
        i := i + 1;
      }
    }

    /** vmm_map */
    method VmmMap(vaddr: nat, n: nat, flags: set<nat>) returns (st: Status)
      requires Valid() && OrdinaryRange(PageOf(vaddr), n) && IsFlags(flags)
      modifies `mem, `tables, pm`outstanding, pm.bm0, pm.bm1
      ensures st == BadAddress <==> !GoodAddress(vaddr)
      ensures Explained(st, old(mem), old(tables), PageOf(vaddr), n) && Blames(st)
      ensures st == BadAddress ==> Valid() && mem == old(mem) && tables == old(tables)
      ensures st == Ok ==> Valid() && Extends(old(tables), tables)
      ensures st == Ok ==> RangeMapped(old(mem), old(tables), mem, tables, PageOf(vaddr), n, OnDemand(flags))
      ensures st == Ok ==> forall q: nat :: PageOf(vaddr) <= q < PageOf(vaddr) + n ==>
                Entry(mem, tables, q) == Pte(0, flags + {TO_ALLOC} - {PRESENT}) && Walk(mem, tables, q) == Fault
    {
      hide Valid, Extends, RangeMapped, PageOf, Explained, Blames, Entry, Walk, Ordinary;
      OkBlamesNobody();
      BadIsExplained(mem, tables, PageOf(vaddr), n);
      if !GoodAddress(vaddr) {
        return BadAddress;
      }
      st := MapRange(vaddr, n, OnDemand(flags));
      if st == Ok {
        forall q: nat | PageOf(vaddr) <= q < PageOf(vaddr) + n
          ensures Entry(mem, tables, q) == Pte(0, flags + {TO_ALLOC} - {PRESENT}) && Walk(mem, tables, q) == Fault
        {
          MappedLeaf(old(mem), old(tables), mem, tables, PageOf(vaddr), n, flags, q);
        }
      }
    }

    /** vmm_map_to */
    method VmmMapTo(vaddr: nat, paddr: nat, n: nat, flags: set<nat>) returns (st: Status)
      requires Valid() && OrdinaryRange(PageOf(vaddr), n) && IsFlags(flags)
      requires paddr + n * PAGE_SIZE <= 0x10_0000_0000_0000
      modifies `mem, `tables, pm`outstanding, pm.bm0, pm.bm1
      ensures st == BadAddress <==> !(GoodAddress(vaddr) && PageAligned(paddr))
      ensures Explained(st, old(mem), old(tables), PageOf(vaddr), n) && Blames(st)
      ensures st == BadAddress ==> Valid() && mem == old(mem) && tables == old(tables)
      ensures st == Ok ==> Valid() && Extends(old(tables), tables)
      ensures st == Ok ==>
        RangeMapped(old(mem), old(tables), mem, tables, PageOf(vaddr), n, ToFrames(paddr / PAGE_SIZE, flags))
      ensures st == Ok ==> forall q: nat :: PageOf(vaddr) <= q < PageOf(vaddr) + n ==>
                && Entry(mem, tables, q) == Pte(paddr / PAGE_SIZE + (q - PageOf(vaddr)), flags + {PRESENT})
                && (Writable(mem, tables, q) <==> WRITABLE in flags)
    {
      hide Valid, Extends, RangeMapped, PageOf, Explained, Blames, Entry, Writable, Linked, Ordinary;
      OkBlamesNobody();
      BadIsExplained(mem, tables, PageOf(vaddr), n);
      if !(GoodAddress(vaddr) && PageAligned(paddr)) {
        return BadAddress;
      }
      st := MapRange(vaddr, n, ToFrames(paddr / PAGE_SIZE, flags));
      if st == Ok {
        LinkedTables();
        forall q: nat | PageOf(vaddr) <= q < PageOf(vaddr) + n
          ensures Entry(mem, tables, q) == Pte(paddr / PAGE_SIZE + (q - PageOf(vaddr)), flags + {PRESENT})
          ensures Writable(mem, tables, q) <==> WRITABLE in flags
        {
          MappedToLeaf(old(mem), old(tables), mem, tables, PageOf(vaddr), n, paddr / PAGE_SIZE, flags, q);
        }
      }
    }

    lemma LinkedTables()
      requires Valid()
      ensures Linked(mem, tables)
    {
    }

    /** _do_free; vmm_unmap and vmm_free call it with doFree false and true.  The pages given to
        vmm_free are those that vmm_map made: no page of another's frame is among them. */
    method DoFree(vaddr: nat, n: nat, doFree: bool) returns (st: Status)
      requires Valid() && OrdinaryRange(PageOf(vaddr), n)
      requires doFree ==> MayFree(PageOf(vaddr), n)
      modifies `mem, `tables, `backed, `foreign, pm`outstanding, pm`reserved, pm.bm0, pm.bm1
      ensures st == Ok || st == BadAddress || st == NotMapped || st == FreePanic
      ensures st == BadAddress <==> !GoodAddress(vaddr)
      ensures st == Ok || st == BadAddress ==> Valid()
      ensures st == BadAddress ==>
        && mem == old(mem) && tables == old(tables) && backed == old(backed)
        && foreign == old(foreign)
      ensures st == Ok ==>
        && RangeFreed(old(mem), old(tables), mem, tables, PageOf(vaddr), n)
        && Extends(tables, old(tables))
      ensures st == Ok ==> BackedOutside(old(backed), backed, PageOf(vaddr), n)
      ensures st == Ok ==>
        foreign == if doFree then old(foreign) - GivenIn(old(mem), old(tables), old(backed), PageOf(vaddr), n)
                   else old(foreign) + FramesIn(old(backed), PageOf(vaddr), n)
      ensures GoodAddress(vaddr) ==>
        (st == Ok <==> old(Freeable(mem, tables, PageOf(vaddr), n, doFree))
                       && (doFree ==> old(GivenBack(mem, tables, backed, foreign, PageOf(vaddr), n))))
    {
      if !GoodAddress(vaddr) {
        return BadAddress;
      }
      hide Valid, Extends, RangeFreed, Entry, PageOf, Ordinary, OrdinaryRange, BackedOutside, Freeable, MayFree,
           GivenBack, GivenIn, FramesIn;
      st := FreeRange(vaddr, n, doFree, mem, tables, backed, foreign);
    }

    /** The loop of _do_free; the ghost parameters are the state it starts in. */
    method FreeRange(vaddr: nat, n: nat, doFree: bool, ghost mem0: Memory, ghost tables0: Tables,
                     ghost backed0: map<nat, nat>, ghost foreign0: set<nat>) returns (st: Status)
      requires Valid() && OrdinaryRange(PageOf(vaddr), n)
      requires mem0 == mem && tables0 == tables && backed0 == backed && foreign0 == foreign
      requires doFree ==> MayFree(PageOf(vaddr), n)
      modifies `mem, `tables, `backed, `foreign, pm`outstanding, pm`reserved, pm.bm0, pm.bm1
      ensures st == Ok || st == NotMapped || st == FreePanic
      ensures st == Ok <==> Freeable(mem0, tables0, PageOf(vaddr), n, doFree)
                            && (doFree ==> GivenBack(mem0, tables0, backed0, foreign0, PageOf(vaddr), n))
      ensures st == Ok ==> Valid() && Extends(tables, tables0)
      ensures st == Ok ==> RangeFreed(mem0, tables0, mem, tables, PageOf(vaddr), n)
      ensures st == Ok ==> BackedOutside(backed0, backed, PageOf(vaddr), n)
      ensures st == Ok ==>
        foreign == if doFree then foreign0 - GivenIn(mem0, tables0, backed0, PageOf(vaddr), n)
                   else foreign0 + FramesIn(backed0, PageOf(vaddr), n)
    {
      hide Valid, Extends, OneChanged, RangeFreed, Entry, Walk, PageOf, Ordinary, BackedOutside, Freeable, GivenSafe,
           GivenBack, GivenIn, FramesIn, IsGiven, SafeFrame, IsPending;
      var v: nat := vaddr;
      var i: nat := 0;
      ghost var first := PageOf(vaddr);
      FreeRangeStart(mem, tables, backed, first, doFree);
      NoFramesIn(backed, first, 0);
      NothingGiven(mem, tables, backed, foreign, first);
      st := Ok;
      while i < n
        invariant 0 <= i <= n && st == Ok && (i < n ==> PageOf(v) == first + i)
        invariant Valid() && Extends(tables, tables0)
        invariant RangeFreed(mem0, tables0, mem, tables, first, i)
        invariant BackedOutside(backed0, backed, first, i)
        invariant foreign == if doFree then foreign0 - GivenIn(mem0, tables0, backed0, first, i)
                             else foreign0 + FramesIn(backed0, first, i)
        invariant Freeable(mem0, tables0, first, i, doFree)
        invariant doFree ==> GivenBack(mem0, tables0, backed0, foreign0, first, i)
      {
        ghost var mem1, tables1, backed1 := mem, tables, backed;
        FreeRangeNext(mem0, tables0, backed0, mem, tables, backed, first, i, n, doFree);
        if doFree {
          GivenStep(mem0, tables0, backed0, mem, tables, backed, foreign0, first, i, n);
          StillSafe(mem0, tables0, backed0, tables, backed, pm.totBlk, reserved, first, i, n);
        }
        st := FreePage(PageOf(v), doFree);
        if st != Ok {
          return;
        }
        RangeFreedStep(mem0, tables0, mem1, tables1, mem, tables, first, i);
        FramesInStep(backed0, backed1, first, i);
        BackedOutsideStep(backed0, backed1, backed, first, i);
        ExtendsTrans(tables, tables1, tables0);
        if i + 1 < n {
          NextPage(v);
        }
        v := v + PAGE_SIZE;
        i := i + 1;
      }
    }

    /** vmm_unmap */
    method VmmUnmap(vaddr: nat, n: nat) returns (st: Status)
      requires Valid() && OrdinaryRange(PageOf(vaddr), n)
      modifies `mem, `tables, `backed, `foreign, pm`outstanding, pm`reserved, pm.bm0, pm.bm1
      ensures st == Ok || st == BadAddress || st == NotMapped || st == FreePanic
      ensures st == BadAddress <==> !GoodAddress(vaddr)
      ensures GoodAddress(vaddr) ==> (st == Ok <==> old(Freeable(mem, tables, PageOf(vaddr), n, false)))
      ensures st == Ok ==> Valid() && Extends(tables, old(tables))
      ensures st == Ok ==> RangeFreed(old(mem), old(tables), mem, tables, PageOf(vaddr), n)
      ensures st == Ok ==> BackedOutside(old(backed), backed, PageOf(vaddr), n)
      ensures st == Ok ==> foreign == old(foreign) + FramesIn(old(backed), PageOf(vaddr), n)
    {
      hide Valid, Extends, RangeFreed, Entry, PageOf, OrdinaryRange, BackedOutside, Freeable, FramesIn;
      st := DoFree(vaddr, n, false);
    }

    /** vmm_free */
    method VmmFree(vaddr: nat, n: nat) returns (st: Status)
      requires Valid() && OrdinaryRange(PageOf(vaddr), n)
      requires MayFree(PageOf(vaddr), n)
      modifies `mem, `tables, `backed, `foreign, pm`outstanding, pm`reserved, pm.bm0, pm.bm1
      ensures st == Ok || st == BadAddress || st == NotMapped || st == FreePanic
      ensures st == BadAddress <==> !GoodAddress(vaddr)
      ensures GoodAddress(vaddr) ==>
        (st == Ok <==> old(Freeable(mem, tables, PageOf(vaddr), n, true))
                       && old(GivenBack(mem, tables, backed, foreign, PageOf(vaddr), n)))
      ensures st == Ok ==> Valid() && Extends(tables, old(tables))
      ensures st == Ok ==> RangeFreed(old(mem), old(tables), mem, tables, PageOf(vaddr), n)
      ensures st == Ok ==> BackedOutside(old(backed), backed, PageOf(vaddr), n)
      ensures st == Ok ==>
        foreign == old(foreign) - GivenIn(old(mem), old(tables), old(backed), PageOf(vaddr), n)
    {
      hide Valid, Extends, RangeFreed, Entry, PageOf, OrdinaryRange, BackedOutside, Freeable, MayFree, GivenBack,
           GivenIn, FramesIn;
      st := DoFree(vaddr, n, true);
    }

    // ----- translation -----

    /** vmm_translate */
    method Translate(vaddr: nat) returns (r: Option<nat>)
      requires Linked(mem, tables) && tables[ROOT] == root && ValidTop(vaddr) && Ordinary(PageOf(vaddr))
      ensures r == Translation(Walk(mem, tables, PageOf(vaddr)), vaddr)
    {
      hide HwWalk;
      ghost var pn := PageOf(vaddr);
      PathEndsAtRoot(pn);
      ChildOnPath(pn, 4);
      ChildOnPath(pn, 3);
      ChildOnPath(pn, 2);
      NoLeafWithoutPath(mem, tables, pn);
      WalkIsDeepest(mem, tables, pn);
      WalkNotAtRoot(mem, tables, pn);
      hide Linked, Walk;
      var pdp := PtChildOf(PML4_VADDR, Index(PageOf(vaddr), 4), ROOT);
      if pdp.None? { return None; }
      var e := Load(pdp.value, Index(PageOf(vaddr), 3), NodeOn(pn, 3));
      if !Present(e) { return None; }
      if HUGE in e.flags {
        return Some(e.frame * PAGE_SIZE + vaddr % 0x4000_0000);
      }
      var pd := PtChildOf(pdp.value, Index(PageOf(vaddr), 3), NodeOn(pn, 3));
      if pd.None? { return None; }
      e := Load(pd.value, Index(PageOf(vaddr), 2), NodeOn(pn, 2));
      if !Present(e) { return None; }
      if HUGE in e.flags {
        return Some(e.frame * PAGE_SIZE + vaddr % 0x20_0000);
      }
      var pt := PtChildOf(pd.value, Index(PageOf(vaddr), 2), NodeOn(pn, 2));
      if pt.None? { return None; }
      e := Load(pt.value, Index(PageOf(vaddr), 1), NodeOn(pn, 1));
      if Present(e) {
        return Some(e.frame * PAGE_SIZE + vaddr % PAGE_SIZE);
      }
      return None;
    }

    // ----- page faults -----

    /** vmm_page_fault_handler; err says what the hardware reports, and it reports `present`
        exactly when its walk finds a page. */
    method PageFault(addr: nat, err: FaultCode) returns (st: Status)
      requires Valid() && Ordinary(PageOf(addr))
      requires err.present <==> Walk(mem, tables, PageOf(addr)) != Fault
      modifies `mem, `backed, pm`outstanding, pm.bm0, pm.bm1
      ensures st == Ok || st == Crash || st == OutOfFrames || st == ShiftTooFar
      ensures Valid() && Blames(st)
      ensures st == Crash <==>
        err.instr || err.rsvd || (!err.present && !IsPending(old(Entry(mem, tables, PageOf(addr)))))
      ensures st != Ok || err.present ==> mem == old(mem) && backed == old(backed)
      ensures st == Ok && !err.present ==>
        FaultedIn(old(mem), mem, tables, old(backed), backed, PageOf(addr), old(pm.outstanding))
      ensures st == Ok && !err.present ==>
        (Writable(mem, tables, PageOf(addr)) <==> WRITABLE in old(Entry(mem, tables, PageOf(addr))).flags)
    {
      OkBlamesNobody();
      hide Valid, PageOf, Ordinary, Entry, Walk, FaultedIn, IsPending, Blames, Writable, Linked;
      if err.instr || err.rsvd {
        return Crash;
      }
      if err.present {
        return Ok;
      }
      st := FaultOn(PageOf(addr));
      if st == Ok {
        LinkedTables();
        FaultedWritable(old(mem), mem, tables, old(backed), backed, PageOf(addr), old(pm.outstanding));
      }
    }

    /** Lines 482-499. */
    method FaultOn(pn: nat) returns (st: Status)
      requires Valid() && Ordinary(pn) && Walk(mem, tables, pn) == Fault
      modifies `mem, `backed, pm`outstanding, pm.bm0, pm.bm1
      ensures st == Ok || st == Crash || st == OutOfFrames || st == ShiftTooFar
      ensures Valid() && Blames(st)
      ensures st == Crash <==> !IsPending(old(Entry(mem, tables, pn)))
      ensures st != Ok ==> mem == old(mem) && backed == old(backed)
      ensures st == Ok ==> FaultedIn(old(mem), mem, tables, old(backed), backed, pn, old(pm.outstanding))
    {
      OkBlamesNobody();
      hide Owned, HwWalk, Walk, Entry, Allocator, Linked, Tidy, Leaves, FaultedIn, Blames;
      LeafKinds(mem, tables, backed, pn);
      PresentLeafWalks(mem, tables, pn);
      var pdp, pd, pt, e := FindLeaf(pn);
      if e == UNUSED || TO_ALLOC !in e.flags {
        return Crash;
      }
      st := BackLeaf(pt, pn, e);
    }

    /** Lines 489-493. */
    method BackLeaf(pt: nat, pn: nat, e: Pte) returns (st: Status)
      requires Valid() && Ordinary(pn) && NodeOn(pn, 1) in tables && pt == TableAddr(NodeOn(pn, 1))
      requires e == Entry(mem, tables, pn) && IsPending(e) && pn !in backed
      modifies `mem, `backed, pm`outstanding, pm.bm0, pm.bm1
      ensures st == Ok || st == OutOfFrames || st == ShiftTooFar
      ensures Valid() && Blames(st)
      ensures st != Ok ==> mem == old(mem) && backed == old(backed)
      ensures st == Ok ==> FaultedIn(old(mem), mem, tables, old(backed), backed, pn, old(pm.outstanding))
    {
      hide Owned, HwWalk, Walk, Entry, Allocator, Linked, Tidy, OneChanged, Leaves, Blames;
      OwnedTables(pm.outstanding, foreign, tables, backed);
      var f;
      st, f := TakeFrame();
      if st != Ok {
        return;
      }
      var e1 := Pte(f, e.flags + {PRESENT} - {TO_ALLOC});
      OwnPage(old(pm.outstanding), foreign, tables, backed, pn, f);
      FaultSummary(mem, tables, pn, e1, backed);
      StoreAt(pt, Index(pn, 1), e1, NodeOn(pn, 1));
      backed := backed[pn := f];
      OkBlamesNobody();
      return Ok;
    }

    // ----- the heap break -----

    ghost predicate BrkOk()
      reads `brk
    {
      brk % PAGE_SIZE == 0 && KRNL_HEAP_START <= brk <= KRNL_HEAP_END
    }

    /** ksbrk.  Callers take back no more than they grew the heap by. */
    method Ksbrk(increment: int) returns (st: Status, ret: nat)
      requires Valid() && BrkOk() && IsIntptr(increment) && increment >= KRNL_HEAP_START - brk
      requires increment < 0 ==> MayFree(PageOf(brk + increment), -increment / PAGE_SIZE)
      modifies `mem, `tables, `backed, `foreign, `brk, pm`outstanding, pm`reserved, pm.bm0, pm.bm1
      ensures ret == old(brk) && Blames(st)
      ensures st == BadAddress <==> !PassesLimit(old(brk), increment)
      ensures st == PastHeap <==> PassesLimit(old(brk), increment) && old(brk) + increment > KRNL_HEAP_END
      ensures st == BadAddress || st == PastHeap ==>
        Valid() && mem == old(mem) && tables == old(tables) && backed == old(backed) && foreign == old(foreign)
            && brk == old(brk)
      ensures increment > 0 && st != PastHeap ==>
        Explained(st, old(mem), old(tables), PageOf(old(brk)), increment / PAGE_SIZE)
      ensures increment <= 0 && st != BadAddress ==>
        (st == Ok <==>
           && old(Freeable(mem, tables, PageOf(brk + increment), -increment / PAGE_SIZE, true))
           && old(GivenBack(mem, tables, backed, foreign, PageOf(brk + increment), -increment / PAGE_SIZE)))
      ensures st == Ok ==> Valid() && BrkOk() && brk == old(brk) + increment
      ensures st == Ok && increment > 0 ==> foreign == old(foreign)
      ensures st == Ok && increment <= 0 ==>
        foreign == old(foreign) - GivenIn(old(mem), old(tables), old(backed), PageOf(brk), -increment / PAGE_SIZE)
      ensures st == Ok && increment > 0 ==>
        RangeMapped(old(mem), old(tables), mem, tables, PageOf(old(brk)), increment / PAGE_SIZE, OnDemand({WRITABLE}))
        && backed == old(backed)
      ensures st == Ok && increment > 0 ==>
        forall q: nat :: PageOf(old(brk)) <= q < PageOf(old(brk)) + increment / PAGE_SIZE ==>
          Entry(mem, tables, q) == Pte(0, {WRITABLE, TO_ALLOC}) && Walk(mem, tables, q) == Fault
      ensures st == Ok && increment <= 0 ==>
        RangeFreed(old(mem), old(tables), mem, tables, PageOf(brk), -increment / PAGE_SIZE)
        && BackedOutside(old(backed), backed, PageOf(brk), -increment / PAGE_SIZE)
    {
      hide Valid, RangeMapped, RangeFreed, Entry, Walk, PageOf, OrdinaryRange, GivenBack, GivenIn, SafeFrame, Extends,
           Ordinary, BackedOutside, GoodAddress, Freeable, Blames;
      ret := brk;
      BadIsExplained(mem, tables, PageOf(brk), if increment > 0 then increment / PAGE_SIZE else 0);
      OkBlamesNobody();
      if increment % PAGE_SIZE == 0 {
        LimitChecked(brk, increment);
      }
      hide Explained;
      if !PassesLimit(brk, increment) {
        return BadAddress, ret;
      }
      if brk + increment > KRNL_HEAP_END {
        return PastHeap, ret;
      }
      AlignedSum(brk, increment);
      if increment > 0 {
        HeapRange(brk, increment / PAGE_SIZE);
        assert {WRITABLE} + {TO_ALLOC} - {PRESENT} == {WRITABLE, TO_ALLOC};
        st := VmmMap(brk, increment / PAGE_SIZE, {WRITABLE});
        if st == Ok {
          brk := brk + increment;
        }
        return;
      }
      var diff: nat := -increment;
      HeapRange(brk - diff, diff / PAGE_SIZE);
      st := VmmFree(brk - diff, diff / PAGE_SIZE);
      OkBlamesNobody();
      if st == Ok {
        brk := brk - diff;
      }
    }
  }

  // ----- the limit of the heap -----

  predicate IsIntptr(x: int) {
    -0x8000_0000_0000_0000 <= x < 0x8000_0000_0000_0000
  }

  /** The assertions of ksbrk; the sum on line 385 is one of 64-bit words. */
  predicate PassesLimit(brk: nat, increment: int) {
    increment % PAGE_SIZE == 0 && (increment > 0 ==> (brk + increment) % 0x1_0000_0000_0000_0000 <= KRNL_HEAP_END)
  }

  /** The check keeps the break inside the heap exactly when the sum does not wrap around. */
  lemma LimitChecked(brk: nat, increment: int)
    requires KRNL_HEAP_START <= brk <= KRNL_HEAP_END && IsIntptr(increment) && increment % PAGE_SIZE == 0
    ensures (PassesLimit(brk, increment) <==> brk + increment <= KRNL_HEAP_END) <==>
        brk + increment < 0x1_0000_0000_0000_0000
  {
  }

  /** Growing the empty heap by 2^47 bytes passes the check on line 385. */
  lemma LimitWraps()
    ensures PassesLimit(KRNL_HEAP_START, 0x8000_0000_0000) && KRNL_HEAP_START + 0x8000_0000_0000 > KRNL_HEAP_END
  {
  }
}
