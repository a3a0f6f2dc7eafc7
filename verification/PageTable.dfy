/** The 4-level page tables that kernel/arch/x86_64/mem/vmm.c edits, and the hardware's walk
    over them (section 4.5 of the Intel SDM, Volume 3A). */
module PageTable {
  import opened Common

  const ENTRIES := 512

  /** Pages of the 48-bit virtual address space. */
  const NUM_PAGES := 0x10_0000_0000

  /** The slot of the PML4 that points to the PML4 itself. */
  const SELF := 510

  // ----- entries -----

  /** Bit numbers of the flags in an entry. */
  const PRESENT: nat := 0
  const WRITABLE: nat := 1
  const HUGE: nat := 7
  const TO_ALLOC: nat := 9

  /** An entry: the frame number in bits 12 to 51 and the set of the other bits that are 1. */
  datatype Pte = Pte(frame: nat, flags: set<nat>)

  const UNUSED := Pte(0, {})

  predicate Present(e: Pte) {
    PRESENT in e.flags
  }

  predicate IsTable(e: Pte) {
    Present(e) && HUGE !in e.flags
  }

  type Memory = map<nat, seq<Pte>>

  function ZeroPage(): (z: seq<Pte>)
    ensures |z| == ENTRIES && forall i :: 0 <= i < ENTRIES ==> z[i] == UNUSED
  {
    seq(ENTRIES, _ => UNUSED)
  }

  // ----- page numbers -----

  /** x without its k lowest base-512 digits. */
  function Up(x: nat, k: nat): nat {
    if k == 0 then x else Up(x, k - 1) / ENTRIES
  }

  /** PML4_IDX, PDP_IDX, PD_IDX and PT_IDX are levels 4 to 1. */
  function Index(pn: nat, level: nat): (i: nat)
    requires level >= 1
    ensures i < ENTRIES
  {
    Up(pn, level - 1) % ENTRIES
  }

  /** A table is named by its level (4 for the PML4) and the number of the entry, counted over
      the whole level above, that points to it. */
  datatype Node = Node(level: nat, id: nat)

  const ROOT := Node(4, 0)

  function Child(n: Node, i: nat): Node
    requires n.level > 1
  {
    Node(n.level - 1, n.id * ENTRIES + i)
  }

  function Parent(n: Node): Node {
    Node(n.level + 1, n.id / ENTRIES)
  }

  /** The table of a level that the walk for page pn passes through. */
  function NodeOn(pn: nat, level: nat): Node {
    Node(level, Up(pn, level))
  }

  lemma ParentOfChild(n: Node, i: nat)
    requires n.level > 1 && i < ENTRIES
    ensures Parent(Child(n, i)) == n && Child(n, i).id % ENTRIES == i
  {
  }

  lemma ChildOnPath(pn: nat, level: nat)
    requires level > 1
    ensures Child(NodeOn(pn, level), Index(pn, level)) == NodeOn(pn, level - 1)
    ensures Parent(NodeOn(pn, level - 1)) == NodeOn(pn, level)
  {
  }

  predicate IsPage(pn: nat) {
    pn < NUM_PAGES
  }

  /** Pages outside the self-map. */
  predicate Ordinary(pn: nat) {
    IsPage(pn) && Up(pn, 3) != SELF
  }

  lemma PathEndsAtRoot(pn: nat)
    requires IsPage(pn)
    ensures NodeOn(pn, 4) == ROOT && Index(pn, 4) == Up(pn, 3)
  {
    assert Up(pn, 1) == pn / 512;
    assert Up(pn, 2) == pn / 512 / 512;
    assert Up(pn, 3) == pn / 512 / 512 / 512;
    assert Up(pn, 4) == Up(pn, 3) / 512;
  }

  // ----- the hardware's walk -----

  datatype Mapping = Fault | Page(level: nat, e: Pte)

  /** The walk for page pn from the table of a level in frame f.  Bit 7 of an entry ends the
      walk at levels 3 and 2, is reserved at level 4 and is no size bit at level 1. */
  function HwWalk(mem: Memory, f: nat, pn: nat, level: nat): Mapping
    requires level >= 1
    decreases level
  {
    if f !in mem || |mem[f]| != ENTRIES then Fault
    else
      var e := mem[f][Index(pn, level)];
      if !Present(e) then Fault
      else if level == 1 then Page(1, e)
      else if HUGE in e.flags then
        if level >= 4 then Fault else Page(level, e)
      else HwWalk(mem, e.frame, pn, level - 1)
  }

  /** The frame that backs page pn.  A huge entry supplies only the bits above its page size. */
  function HwFrame(m: Mapping, pn: nat): Option<nat> {
    match m
    case Fault => None
    case Page(level, e) =>
      if level <= 1 then Some(e.frame)
      else if level == 2 then Some(e.frame / 512 * 512 + pn % 512)
      else Some(e.frame / 0x4_0000 * 0x4_0000 + pn % 0x4_0000)
  }

  // ----- well-linked tables -----

  type Tables = map<Node, nat>

  /** The entry of n is not the self-map. */
  predicate Plain(n: Node, i: nat) {
    !(n.level == 4 && i == SELF)
  }

  ghost predicate HasTable(mem: Memory, tables: Tables, n: Node) {
    && n in tables && tables[n] in mem && |mem[tables[n]]| == ENTRIES
  }

  function EntryOf(mem: Memory, tables: Tables, n: Node, i: nat): Pte {
    if n in tables && tables[n] in mem && i < |mem[tables[n]]| then mem[tables[n]][i] else UNUSED
  }

  /** Entry i of table n points to a table exactly when that table is live, and then to it, writable. */
  ghost predicate EntryLinked(mem: Memory, tables: Tables, n: Node, i: nat)
    requires n.level > 1
  {
    var e := EntryOf(mem, tables, n, i);
    && (IsTable(e) <==> Child(n, i) in tables)
    && (IsTable(e) ==> e == Pte(tables[Child(n, i)], {PRESENT, WRITABLE}))
    && (e == UNUSED || Present(e))
    && (n.level == 4 ==> HUGE !in e.flags)
  }

  ghost predicate NodeLinked(mem: Memory, tables: Tables, n: Node) {
    && 1 <= n.level <= 4
    && HasTable(mem, tables, n)
    && (if n.level == 4 then n == ROOT else Parent(n) in tables && Plain(Parent(n), n.id % ENTRIES))
    && (n.level > 1 ==> forall i :: 0 <= i < ENTRIES && Plain(n, i) ==> EntryLinked(mem, tables, n, i))
  }

  ghost predicate Injective(tables: Tables) {
    forall n, m :: n in tables && m in tables && tables[n] == tables[m] ==> n == m
  }

  /** The live tables form one tree below the PML4, which also maps itself. */
  ghost predicate Linked(mem: Memory, tables: Tables) {
    && ROOT in tables
    && Injective(tables)
    && (forall n :: n in tables ==> NodeLinked(mem, tables, n))
    && EntryOf(mem, tables, ROOT, SELF) == Pte(tables[ROOT], {PRESENT, WRITABLE})
  }

  ghost predicate NonEmpty(mem: Memory, tables: Tables, n: Node) {
    exists i :: 0 <= i < ENTRIES && EntryOf(mem, tables, n, i) != UNUSED
  }

  /** The page-table entry of page pn, UNUSED when there is no page table for it. */
  function Entry(mem: Memory, tables: Tables, pn: nat): Pte {
    EntryOf(mem, tables, NodeOn(pn, 1), Index(pn, 1))
  }

  function Walk(mem: Memory, tables: Tables, pn: nat): Mapping {
    if ROOT in tables then HwWalk(mem, tables[ROOT], pn, 4) else Fault
  }

  /** Walking down the tree: at a live table the hardware's next step is to the live child, or
      ends in the entry. */
  lemma WalkStep(mem: Memory, tables: Tables, pn: nat, level: nat)
    requires Linked(mem, tables) && Ordinary(pn) && 1 <= level <= 4
    requires NodeOn(pn, level) in tables
    ensures var e := EntryOf(mem, tables, NodeOn(pn, level), Index(pn, level));
            HwWalk(mem, tables[NodeOn(pn, level)], pn, level)
            == if level > 1 && NodeOn(pn, level - 1) in tables
                then HwWalk(mem, tables[NodeOn(pn, level - 1)], pn, level - 1)
               else if !Present(e) then Fault else Page(level, e)
  {
    var n := NodeOn(pn, level);
    assert NodeLinked(mem, tables, n);
    PathEndsAtRoot(pn);
    if level > 1 {
      ChildOnPath(pn, level);
      assert EntryLinked(mem, tables, n, Index(pn, level));
    }
  }

  /** Live tables on a page's path are closed upwards. */
  lemma {:induction false} PathClosed(mem: Memory, tables: Tables, pn: nat, level: nat, upper: nat)
    requires Linked(mem, tables) && 1 <= level <= upper <= 4
    requires NodeOn(pn, level) in tables
    ensures NodeOn(pn, upper) in tables
    decreases upper - level
  {
    if level < upper {
      assert NodeLinked(mem, tables, NodeOn(pn, level));
      ChildOnPath(pn, level + 1);
      PathClosed(mem, tables, pn, level + 1, upper);
    }
  }

  // ----- the recursive self-map -----

  const PML4_VADDR := 0xffff_ff7f_bfdf_e000

  /** Bits 12 to 47 of an address; VADDR checks aside, the code looks at no others. */
  function PageOf(vaddr: nat): (pn: nat)
    ensures IsPage(pn)
  {
    vaddr / PAGE_SIZE % NUM_PAGES
  }

  /** PT_IDX, PD_IDX, PDP_IDX and PML4_IDX: nine bits of the address each. */
  lemma IndexMacros(vaddr: nat)
    ensures Index(PageOf(vaddr), 1) == vaddr / 0x1000 % 0x200
    ensures Index(PageOf(vaddr), 2) == vaddr / 0x20_0000 % 0x200
    ensures Index(PageOf(vaddr), 3) == vaddr / 0x4000_0000 % 0x200
    ensures Index(PageOf(vaddr), 4) == vaddr / 0x80_0000_0000 % 0x200
  {
    var p := vaddr / 0x1000;
    assert p / 0x200 == vaddr / 0x20_0000;
    assert p / 0x4_0000 == vaddr / 0x4000_0000;
    assert p / 0x800_0000 == vaddr / 0x80_0000_0000;
    PageDigits(p);
  }

  lemma PageDigits(p: nat)
    ensures var pn := p % NUM_PAGES;
            && Index(pn, 1) == p % 0x200
            && Index(pn, 2) == p / 0x200 % 0x200
            && Index(pn, 3) == p / 0x4_0000 % 0x200
            && Index(pn, 4) == p / 0x800_0000 % 0x200
  {
    var high, pn := p / 0x10_0000_0000, p % 0x10_0000_0000;
    assert p == high * 0x10_0000_0000 + pn;
    assert Up(pn, 0) == pn && Up(pn, 1) == pn / 512 && Up(pn, 2) == pn / 512 / 512 && Up(pn, 3) == pn / 512 / 512 / 512;
    Digits(high * 0x800_0000 + pn / 512, pn % 512, p);
    Digits(high * 0x4_0000 + pn / 512 / 512, pn / 512 % 512, high * 0x800_0000 + pn / 512);
    Digits(high * 512 + pn / 512 / 512 / 512, pn / 512 / 512 % 512, high * 0x4_0000 + pn / 512 / 512);
    assert p / 512 == high * 0x800_0000 + pn / 512;
    assert p / 0x4_0000 == p / 512 / 512 && p / 0x800_0000 == p / 512 / 512 / 512;
  }

  /** PT_CHILD: ((parent << 9) | 0xffff000000000000) | (idx << 12) on 64-bit words, for an
      aligned parent; PtChildBits below ties the two forms together. */
  function PtChild(parent: nat, idx: nat): nat {
    0xffff_0000_0000_0000 + parent * ENTRIES % 0x1_0000_0000_0000 + idx * PAGE_SIZE
  }

  /** An entry keeps its address and its flags apart exactly for page-aligned addresses below 2^52:
      PTE_SET and PTE_SET_PADDR are then undone by PTE_PADDR and PTE_FLAGS. */
  lemma EntryWord(entry: bv64, addr: bv64, flags: bv64)
    requires addr & 0xfff == 0 && flags & 0x000f_ffff_ffff_f000 == 0
    ensures (addr | flags) & 0x000f_ffff_ffff_f000 == addr <==> addr < 0x0010_0000_0000_0000
    ensures addr < 0x0010_0000_0000_0000 ==> (addr | flags) & 0xfff0_0000_0000_0fff == flags
    ensures addr < 0x0010_0000_0000_0000 ==>
              var word := (entry & 0xfff0_0000_0000_0fff) | addr;
              word & 0x000f_ffff_ffff_f000 == addr && word & 0xfff0_0000_0000_0fff == entry & 0xfff0_0000_0000_0fff
  {
  }

  lemma PtChildBits(parent: bv64, idx: bv64)
    requires parent & 0xfff == 0 && idx < 512
    ensures ((parent << 9) | 0xffff_0000_0000_0000) | (idx << 12)
         == 0xffff_0000_0000_0000 + ((parent << 9) & 0xffff_ffff_ffff) + (idx << 12)
  {
  }

  /** The index macros of vmm.c read the digits of an address; PT_CHILD drops the highest one
      and appends idx. */
  function Shifted(pn: nat, idx: nat): nat {
    pn % (NUM_PAGES / ENTRIES) * ENTRIES + idx
  }

  lemma PtChildPage(parent: nat, idx: nat)
    requires parent % PAGE_SIZE == 0 && idx < ENTRIES
    ensures PtChild(parent, idx) % PAGE_SIZE == 0
    ensures PageOf(PtChild(parent, idx)) == Shifted(PageOf(parent), idx)
  {
    var p := parent / 4096;
    assert parent * 512 == p * 0x20_0000;
    TableBits(p);
    TablePage(p % 0x800_0000, idx);
  }

  lemma TableBits(p: nat)
    ensures p * 0x20_0000 % 0x1_0000_0000_0000 == p % 0x800_0000 * 0x20_0000
    ensures p % 0x10_0000_0000 % 0x800_0000 == p % 0x800_0000
  {
    var high, low := p / 0x800_0000, p % 0x800_0000;
    assert p * 0x20_0000 == high * 0x1_0000_0000_0000 + low * 0x20_0000;
  }

  lemma TablePage(low: nat, idx: nat)
    requires low < 0x800_0000 && idx < 512
    ensures (0xffff_0000_0000_0000 + low * 0x20_0000 + idx * 4096) % 4096 == 0
    ensures PageOf(0xffff_0000_0000_0000 + low * 0x20_0000 + idx * 4096) == low * 512 + idx
  {
    assert 0xffff_0000_0000_0000 + low * 0x20_0000 + idx * 4096 == (0xf_fff0_0000_0000 + low * 512 + idx) * 4096;
  }

  lemma ShiftedDigits(pn: nat, idx: nat, level: nat)
    requires IsPage(pn) && idx < ENTRIES && 1 <= level <= 4
    ensures IsPage(Shifted(pn, idx))
    ensures Index(Shifted(pn, idx), level) == if level == 1 then idx else Index(pn, level - 1)
  {
    var top, q := pn / 0x800_0000, pn % 0x800_0000;
    var q1, q2 := q / 512, q / 512 / 512;
    Digits(top * 0x4_0000 + q1, q % 512, pn);
    Digits(top * 512 + q2, q1 % 512, top * 0x4_0000 + q1);
    Digits(top, q2, top * 512 + q2);
    var s := Shifted(pn, idx);
    Digits(q, idx, s);
    assert Up(s, 0) == s && Up(s, 1) == s / 512 && Up(s, 2) == s / 512 / 512 && Up(s, 3) == s / 512 / 512 / 512;
    assert Up(pn, 0) == pn && Up(pn, 1) == pn / 512 && Up(pn, 2) == pn / 512 / 512;
  }

  lemma Digits(high: nat, low: nat, x: nat)
    requires x == high * 512 + low && low < 512
    ensures x / 512 == high && x % 512 == low
  {
  }

  /** The address at which the code edits table n: the chain of PT_CHILD from PML4_VADDR. */
  function TableAddr(n: Node): nat
    decreases 4 - n.level
  {
    if n.level >= 4 then PML4_VADDR else PtChild(TableAddr(Parent(n)), n.id % ENTRIES)
  }

  lemma {:induction false} TableAddrDigits(n: Node, level: nat)
    requires n.level <= 4 && 1 <= level <= 4
    ensures TableAddr(n) % PAGE_SIZE == 0
    ensures Index(PageOf(TableAddr(n)), level)
         == if n.level == 4 then SELF
            else if level == 1 then n.id % ENTRIES
            else Index(PageOf(TableAddr(Parent(n))), level - 1)
    decreases 4 - n.level
  {
    if n.level == 4 {
      var pn := PageOf(PML4_VADDR);
      assert pn == ((510 * 512 + 510) * 512 + 510) * 512 + 510;
      assert Up(pn, 1) == (510 * 512 + 510) * 512 + 510;
      assert Up(pn, 2) == 510 * 512 + 510;
      assert Up(pn, 3) == 510;
    } else {
      TableAddrDigits(Parent(n), 1);
      PtChildPage(TableAddr(Parent(n)), n.id % ENTRIES);
      ShiftedDigits(PageOf(TableAddr(Parent(n))), n.id % ENTRIES, level);
    }
  }

  /** Following table entries from the root along the digits of an address. */
  ghost predicate Reaches(mem: Memory, tables: Tables, vaddr: nat, f: nat) {
    Walk(mem, tables, PageOf(vaddr)).Page? && Walk(mem, tables, PageOf(vaddr)).level == 1
    && Walk(mem, tables, PageOf(vaddr)).e.frame == f
  }

  lemma LiveEntry(mem: Memory, tables: Tables, n: Node)
    requires Linked(mem, tables) && n in tables && n.level < 4
    ensures Parent(n) in tables
    ensures var e := EntryOf(mem, tables, Parent(n), n.id % ENTRIES);
            IsTable(e) && e == Pte(tables[n], {PRESENT, WRITABLE})
    ensures HasTable(mem, tables, Parent(n))
  {
    assert NodeLinked(mem, tables, n);
    assert NodeLinked(mem, tables, Parent(n));
    assert EntryLinked(mem, tables, Parent(n), n.id % ENTRIES);
    assert Child(Parent(n), n.id % ENTRIES) == n;
  }

  /** One step of the walk from a table that the walk has reached. */
  lemma TableStep(mem: Memory, f: nat, pn: nat, level: nat, e: Pte)
    requires level > 1 && f in mem && |mem[f]| == ENTRIES
    requires e == mem[f][Index(pn, level)] && IsTable(e)
    ensures HwWalk(mem, f, pn, level) == HwWalk(mem, e.frame, pn, level - 1)
  {
  }

  /** mem has the tables of mz, except possibly the contents of n's frame. */
  ghost predicate SameButAt(mem: Memory, mz: Memory, tables: Tables, n: Node) {
    forall m :: m in tables && m != n ==>
      && HasTable(mz, tables, m) && HasTable(mem, tables, m)
      && mem[tables[m]] == mz[tables[m]]
  }

  /** The last `level` steps of the walk for TableAddr(n) pass the live tables above n: from
      the table `level` steps above n to n itself, whose contents do not matter. */
  lemma {:induction false} SelfMapTail(mem: Memory, mz: Memory, tables: Tables, n: Node, m: Node, pn: nat, level: nat)
    requires Linked(mz, tables) && n in tables && m in tables && SameButAt(mem, mz, tables, n)
    requires 1 <= level <= 3 && n.level + level == m.level <= 4
    requires Up(n.id, level) == m.id
    requires forall k :: 1 <= k <= level ==> Index(pn, k) == Index(n.id, k)
    ensures HwWalk(mem, tables[m], pn, level).Page?
    ensures HwWalk(mem, tables[m], pn, level).level == 1 && HwWalk(mem, tables[m], pn, level).e.frame == tables[n]
    decreases level
  {
    var c := Node(m.level - 1, Up(n.id, level - 1));
    AncestorsLive(mz, tables, n, level - 1);
    assert Parent(c) == m && c.id % ENTRIES == Index(pn, level);
    LiveEntry(mz, tables, c);
    if level > 1 {
      TableStep(mem, tables[m], pn, level, EntryOf(mem, tables, m, Index(pn, level)));
      SelfMapTail(mem, mz, tables, n, c, pn, level - 1);
    }
  }

  lemma {:induction false} AncestorsLive(mem: Memory, tables: Tables, n: Node, k: nat)
    requires Linked(mem, tables) && n in tables && n.level + k <= 4
    ensures Node(n.level + k, Up(n.id, k)) in tables
  {
    if k > 0 {
      AncestorsLive(mem, tables, n, k - 1);
      assert NodeLinked(mem, tables, Node(n.level + k - 1, Up(n.id, k - 1)));
    }
  }

  /** Digit 510 keeps the walk at the root. */
  lemma {:induction false} SelfMapHead(mem: Memory, tables: Tables, pn: nat, level: nat, stop: nat)
    requires HasTable(mem, tables, ROOT) && EntryOf(mem, tables, ROOT, SELF) == Pte(tables[ROOT], {PRESENT, WRITABLE})
    requires 1 <= stop <= level <= 4
    requires forall k :: stop < k <= level ==> Index(pn, k) == SELF
    ensures HwWalk(mem, tables[ROOT], pn, level) == HwWalk(mem, tables[ROOT], pn, stop)
    decreases level
  {
    if stop < level {
      TableStep(mem, tables[ROOT], pn, level, EntryOf(mem, tables, ROOT, SELF));
      SelfMapHead(mem, tables, pn, level - 1, stop);
    }
  }

  /** All digits of TableAddr(n): 510 as often as n has levels, then the path to n. */
  lemma {:induction false} TableAddrPath(n: Node, level: nat)
    requires 1 <= n.level <= 4 && 1 <= level <= 4
    ensures Index(PageOf(TableAddr(n)), level) == if level > 4 - n.level then SELF else Index(n.id, level)
    decreases 4 - n.level
  {
    TableAddrDigits(n, level);
    if n.level < 4 {
      if level > 1 {
        TableAddrPath(Parent(n), level - 1);
        UpOfUp(n.id, level - 2);
      }
    }
  }

  lemma {:induction false} UpOfUp(x: nat, k: nat)
    ensures Up(x / ENTRIES, k) == Up(x, k + 1)
  {
    if k > 0 {
      UpOfUp(x, k - 1);
    }
  }

  /** The code reaches exactly the live table of every path through the self-map. */
  lemma SelfMapReachesTables(mem: Memory, tables: Tables, n: Node)
    requires Linked(mem, tables) && n in tables
    ensures Reaches(mem, tables, TableAddr(n), tables[n])
  {
    assert NodeLinked(mem, tables, n) && NodeLinked(mem, tables, ROOT);
    if n.level == 4 {
      var pn := PageOf(TableAddr(n));
      forall level | 1 <= level <= 4
        ensures Index(pn, level) == SELF
      {
        TableAddrPath(n, level);
      }
      SelfMapHead(mem, tables, pn, 4, 1);
    } else {
      forall m | m in tables && m != n
        ensures HasTable(mem, tables, m)
      {
        assert NodeLinked(mem, tables, m);
      }
      SelfMapReachesFrame(mem, mem, tables, n);
    }
  }

  /** It also reaches a table whose contents are still to be written, as _pt_create does. */
  lemma SelfMapReachesFrame(mem: Memory, mz: Memory, tables: Tables, n: Node)
    requires Linked(mz, tables) && n in tables && n.level < 4 && SameButAt(mem, mz, tables, n)
    ensures Reaches(mem, tables, TableAddr(n), tables[n])
  {
    assert NodeLinked(mz, tables, n) && NodeLinked(mz, tables, ROOT);
    var pn := PageOf(TableAddr(n));
    forall level | 1 <= level <= 4
      ensures Index(pn, level) == if level > 4 - n.level then SELF else Index(n.id, level)
    {
      TableAddrPath(n, level);
    }
    SelfMapHead(mem, tables, pn, 4, 4 - n.level);
    AncestorsLive(mz, tables, n, 4 - n.level);
    assert NodeLinked(mz, tables, Node(4, Up(n.id, 4 - n.level)));
    SelfMapTail(mem, mz, tables, n, ROOT, pn, 4 - n.level);
  }

  // ----- the walk, told by the live tables -----

  /** The lowest live table on the path of page pn. */
  function Deepest(tables: Tables, pn: nat): (d: nat)
    ensures 1 <= d <= 4
    ensures forall k :: 1 <= k < d ==> NodeOn(pn, k) !in tables
    ensures d < 4 ==> NodeOn(pn, d) in tables
  {
    if NodeOn(pn, 1) in tables then 1
    else if NodeOn(pn, 2) in tables then 2
    else if NodeOn(pn, 3) in tables then 3
    else 4
  }

  function Result(level: nat, e: Pte): Mapping {
    if Present(e) then Page(level, e) else Fault
  }

  lemma {:induction false} WalkFrom(mem: Memory, tables: Tables, pn: nat, level: nat)
    requires Linked(mem, tables) && Ordinary(pn)
    requires Deepest(tables, pn) <= level <= 4 && NodeOn(pn, level) in tables
    ensures var d := Deepest(tables, pn);
            HwWalk(mem, tables[NodeOn(pn, level)], pn, level)
            == Result(d, EntryOf(mem, tables, NodeOn(pn, d), Index(pn, d)))
    decreases level
  {
    WalkStep(mem, tables, pn, level);
    var d := Deepest(tables, pn);
    if d < level {
      PathClosed(mem, tables, pn, d, level - 1);
      WalkFrom(mem, tables, pn, level - 1);
    }
  }

  /** The hardware ends in the entry of the lowest live table. */
  lemma WalkIsDeepest(mem: Memory, tables: Tables, pn: nat)
    requires Linked(mem, tables) && Ordinary(pn)
    ensures var d := Deepest(tables, pn);
            && NodeOn(pn, d) in tables
            && Walk(mem, tables, pn) == Result(d, EntryOf(mem, tables, NodeOn(pn, d), Index(pn, d)))
  {
    PathEndsAtRoot(pn);
    WalkFrom(mem, tables, pn, 4);
  }

  // ----- the hardware's right to write -----

  /** Section 4.6 of the SDM: a page can be written when every entry of its walk has the writable bit. */
  predicate HwWritable(mem: Memory, f: nat, pn: nat, level: nat)
    requires level >= 1
    decreases level
  {
    && f in mem && |mem[f]| == ENTRIES
    && var e := mem[f][Index(pn, level)];
       && Present(e) && WRITABLE in e.flags
       && (if level == 1 then true
           else if HUGE in e.flags then level < 4
           else HwWritable(mem, e.frame, pn, level - 1))
  }

  predicate Writable(mem: Memory, tables: Tables, pn: nat) {
    ROOT in tables && HwWritable(mem, tables[ROOT], pn, 4)
  }

  lemma {:induction false} WritableFrom(mem: Memory, tables: Tables, pn: nat, level: nat)
    requires Linked(mem, tables) && Ordinary(pn) && 1 <= level <= 4 && NodeOn(pn, level) in tables
    ensures var m := HwWalk(mem, tables[NodeOn(pn, level)], pn, level);
            HwWritable(mem, tables[NodeOn(pn, level)], pn, level) <==> m.Page? && WRITABLE in m.e.flags
    decreases level
  {
    assert NodeLinked(mem, tables, NodeOn(pn, level));
    PathEndsAtRoot(pn);
    if level > 1 {
      ChildOnPath(pn, level);
      assert EntryLinked(mem, tables, NodeOn(pn, level), Index(pn, level));
      if NodeOn(pn, level - 1) in tables {
        WritableFrom(mem, tables, pn, level - 1);
      }
    }
  }

  /** The tables above never take the right away: a page can be written exactly when its own entry says so. */
  lemma WritableIsLeaf(mem: Memory, tables: Tables, pn: nat)
    requires Linked(mem, tables) && Ordinary(pn)
    ensures Writable(mem, tables, pn)
       <==> Walk(mem, tables, pn).Page? && WRITABLE in Walk(mem, tables, pn).e.flags
  {
    hide HwWalk, HwWritable;
    PathEndsAtRoot(pn);
    WritableFrom(mem, tables, pn, 4);
  }

  // ----- the three ways vmm.c changes the tables -----

  function Store(mem: Memory, f: nat, i: nat, e: Pte): Memory
    requires f in mem && i < |mem[f]|
  {
    mem[f := mem[f][i := e]]
  }

  /** _pt_create: a new, zeroed table in frame f behind entry i of n. */
  function AddMem(mem: Memory, tables: Tables, n: Node, i: nat, f: nat): Memory
    requires n in tables && tables[n] in mem && i < |mem[tables[n]]|
  {
    Store(mem, tables[n], i, Pte(f, {PRESENT, WRITABLE}))[f := ZeroPage()]
  }

  ghost predicate CanAdd(mem: Memory, tables: Tables, n: Node, i: nat, f: nat) {
    && Linked(mem, tables) && n in tables && n.level > 1 && i < ENTRIES && Plain(n, i)
    && HasTable(mem, tables, n)
    && EntryOf(mem, tables, n, i) == UNUSED
    && f !in tables.Values
  }

  lemma ChildFresh(mem: Memory, tables: Tables, n: Node, i: nat)
    requires Linked(mem, tables) && n in tables && n.level > 1 && i < ENTRIES && Plain(n, i)
    requires EntryOf(mem, tables, n, i) == UNUSED
    ensures Child(n, i) !in tables
    ensures forall m :: m in tables ==> m.level == 4 || Parent(m) != Child(n, i)
  {
    assert NodeLinked(mem, tables, n);
    assert EntryLinked(mem, tables, n, i);
    forall m | m in tables
      ensures m.level == 4 || Parent(m) != Child(n, i)
    {
      assert NodeLinked(mem, tables, m);
    }
  }

  lemma AddedNodeLinked(mem: Memory, tables: Tables, n: Node, i: nat, f: nat, m: Node)
    requires CanAdd(mem, tables, n, i, f)
    requires m in tables || m == Child(n, i)
    ensures NodeLinked(AddMem(mem, tables, n, i, f), tables[Child(n, i) := f], m)
  {
    var c := Child(n, i);
    var mem1, tables1 := AddMem(mem, tables, n, i, f), tables[c := f];
    ChildFresh(mem, tables, n, i);
    ParentOfChild(n, i);
    assert NodeLinked(mem, tables, n);
    if m == c {
      forall k | 0 <= k < ENTRIES && m.level > 1
        ensures EntryLinked(mem1, tables1, m, k)
      {
        ParentOfChild(m, k);
      }
    } else {
      assert NodeLinked(mem, tables, m);
      assert f != tables[m];
      forall k | 0 <= k < ENTRIES && m.level > 1 && Plain(m, k)
        ensures EntryLinked(mem1, tables1, m, k)
      {
        assert EntryLinked(mem, tables, m, k);
        ParentOfChild(m, k);
      }
    }
  }

  lemma AddKeepsLinked(mem: Memory, tables: Tables, n: Node, i: nat, f: nat)
    requires CanAdd(mem, tables, n, i, f)
    ensures Linked(AddMem(mem, tables, n, i, f), tables[Child(n, i) := f])
  {
    var c := Child(n, i);
    var mem1, tables1 := AddMem(mem, tables, n, i, f), tables[c := f];
    ChildFresh(mem, tables, n, i);
    forall m | m in tables1
      ensures NodeLinked(mem1, tables1, m)
    {
      AddedNodeLinked(mem, tables, n, i, f, m);
    }
    assert NodeLinked(mem, tables, ROOT);
    assert f != tables[ROOT];
  }

  /** Pages are seen alike in two states: same page-table entry, same hardware walk. */
  ghost predicate AgreeAt(mem: Memory, tables: Tables, mem1: Memory, tables1: Tables, pn: nat) {
    Entry(mem, tables, pn) == Entry(mem1, tables1, pn) && Walk(mem, tables, pn) == Walk(mem1, tables1, pn)
  }

  /** Two states of the tables show page pn alike when its path ends in the same entry. */
  lemma SameEnd(mem: Memory, tables: Tables, mem1: Memory, tables1: Tables, pn: nat)
    requires Linked(mem, tables) && Linked(mem1, tables1) && Ordinary(pn)
    requires Deepest(tables, pn) == Deepest(tables1, pn)
    requires var d := Deepest(tables, pn);
             EntryOf(mem, tables, NodeOn(pn, d), Index(pn, d)) == EntryOf(mem1, tables1, NodeOn(pn, d), Index(pn, d))
    ensures AgreeAt(mem, tables, mem1, tables1, pn)
  {
    WalkIsDeepest(mem, tables, pn);
    WalkIsDeepest(mem1, tables1, pn);
  }

  /** ... or when both end in an unused entry of some upper table or an unused leaf. */
  lemma BothUnused(mem: Memory, tables: Tables, mem1: Memory, tables1: Tables, pn: nat)
    requires Linked(mem, tables) && Linked(mem1, tables1) && Ordinary(pn)
    requires var d := Deepest(tables, pn); EntryOf(mem, tables, NodeOn(pn, d), Index(pn, d)) == UNUSED
    requires var d := Deepest(tables1, pn); EntryOf(mem1, tables1, NodeOn(pn, d), Index(pn, d)) == UNUSED
    ensures AgreeAt(mem, tables, mem1, tables1, pn)
  {
    WalkIsDeepest(mem, tables, pn);
    WalkIsDeepest(mem1, tables1, pn);
  }

  lemma AddKeepsView(mem: Memory, tables: Tables, n: Node, i: nat, f: nat, pn: nat)
    requires CanAdd(mem, tables, n, i, f) && Ordinary(pn)
    ensures AgreeAt(mem, tables, AddMem(mem, tables, n, i, f), tables[Child(n, i) := f], pn)
  {
    var c := Child(n, i);
    var mem1, tables1 := AddMem(mem, tables, n, i, f), tables[c := f];
    AddKeepsLinked(mem, tables, n, i, f);
    ChildFresh(mem, tables, n, i);
    assert NodeLinked(mem, tables, n);
    if NodeOn(pn, n.level - 1) == c {
      AddedOnPath(mem, tables, n, i, f, pn);
    } else {
      AddedOffPath(mem, tables, n, i, f, pn);
    }
  }

  lemma AddedOnPath(mem: Memory, tables: Tables, n: Node, i: nat, f: nat, pn: nat)
    requires CanAdd(mem, tables, n, i, f) && Ordinary(pn) && NodeOn(pn, n.level - 1) == Child(n, i) && n.level <= 4
    requires Linked(AddMem(mem, tables, n, i, f), tables[Child(n, i) := f])
    ensures AgreeAt(mem, tables, AddMem(mem, tables, n, i, f), tables[Child(n, i) := f], pn)
  {
    hide HwWalk, Walk, Up;
    var c := Child(n, i);
    ChildFresh(mem, tables, n, i);
    ParentOfChild(n, i);
    ChildOnPath(pn, n.level);
    ParentOfChild(NodeOn(pn, n.level), Index(pn, n.level));
    assert forall k :: 1 <= k < c.level ==> NodeOn(pn, k) !in tables by {
      forall k | 1 <= k < c.level ensures NodeOn(pn, k) !in tables {
        if NodeOn(pn, k) in tables {
          PathClosed(mem, tables, pn, k, c.level);
        }
      }
    }
    BothUnused(mem, tables, AddMem(mem, tables, n, i, f), tables[c := f], pn);
  }

  lemma AddedOffPath(mem: Memory, tables: Tables, n: Node, i: nat, f: nat, pn: nat)
    requires CanAdd(mem, tables, n, i, f) && Ordinary(pn) && NodeOn(pn, n.level - 1) != Child(n, i) && n.level <= 4
    requires Linked(AddMem(mem, tables, n, i, f), tables[Child(n, i) := f])
    ensures AgreeAt(mem, tables, AddMem(mem, tables, n, i, f), tables[Child(n, i) := f], pn)
  {
    hide HwWalk, Walk, Up;
    var c := Child(n, i);
    var mem1, tables1 := AddMem(mem, tables, n, i, f), tables[c := f];
    var d := Deepest(tables, pn);
    WalkIsDeepest(mem, tables, pn);
    assert Deepest(tables1, pn) == d;
    assert NodeLinked(mem, tables, NodeOn(pn, d));
    if NodeOn(pn, d) == n {
      ChildOnPath(pn, d);
      assert Index(pn, d) != i;
    }
    SameEnd(mem, tables, mem1, tables1, pn);
  }

  // Setting or clearing an entry of a page table.

  lemma SetLeafKeepsLinked(mem: Memory, tables: Tables, n: Node, i: nat, e: Pte)
    requires Linked(mem, tables) && n in tables && n.level == 1 && i < ENTRIES
    ensures HasTable(mem, tables, n)
    ensures Linked(Store(mem, tables[n], i, e), tables)
  {
    assert NodeLinked(mem, tables, n);
    var mem1 := Store(mem, tables[n], i, e);
    forall m | m in tables
      ensures NodeLinked(mem1, tables, m)
    {
      assert NodeLinked(mem, tables, m);
      if m != n && m.level > 1 {
        forall k | 0 <= k < ENTRIES && Plain(m, k)
          ensures EntryLinked(mem1, tables, m, k)
        {
          assert EntryLinked(mem, tables, m, k);
        }
      }
    }
    assert NodeLinked(mem, tables, ROOT);
  }

  lemma SetLeafView(mem: Memory, tables: Tables, pn: nat, e: Pte, q: nat)
    requires Linked(mem, tables) && Ordinary(pn) && NodeOn(pn, 1) in tables && Ordinary(q)
    ensures HasTable(mem, tables, NodeOn(pn, 1))
    ensures var mem1 := Store(mem, tables[NodeOn(pn, 1)], Index(pn, 1), e);
            if q == pn then Entry(mem1, tables, q) == e && Walk(mem1, tables, q) == Result(1, e)
            else AgreeAt(mem, tables, mem1, tables, q)
  {
    var n, i := NodeOn(pn, 1), Index(pn, 1);
    SetLeafKeepsLinked(mem, tables, n, i, e);
    var mem1 := Store(mem, tables[n], i, e);
    WalkIsDeepest(mem, tables, q);
    WalkIsDeepest(mem1, tables, q);
    forall m | m in tables && m != n
      ensures mem1[tables[m]] == mem[tables[m]]
    {
      assert NodeLinked(mem, tables, m);
    }
    if NodeOn(q, 1) == n && q != pn {
      assert Up(q, 1) == q / 512 && Up(pn, 1) == pn / 512;
      assert Index(q, 1) == q % 512 && Index(pn, 1) == pn % 512;
      assert Index(q, 1) != i;
    }
  }

  // Clearing the entry of an empty table.

  ghost predicate CanRemove(mem: Memory, tables: Tables, n: Node, i: nat) {
    && Linked(mem, tables) && n in tables && n.level > 1 && i < ENTRIES && Plain(n, i)
    && HasTable(mem, tables, n)
    && Child(n, i) in tables
    && !NonEmpty(mem, tables, Child(n, i))
  }

  lemma ChildEmpty(mem: Memory, tables: Tables, n: Node, i: nat)
    requires CanRemove(mem, tables, n, i)
    ensures forall m :: m in tables && m.level < 4 ==> Parent(m) != Child(n, i)
  {
    var c := Child(n, i);
    forall m | m in tables && m.level < 4
      ensures Parent(m) != c
    {
      LiveEntry(mem, tables, m);
      assert EntryOf(mem, tables, Parent(m), m.id % ENTRIES) != UNUSED;
    }
  }

  lemma RemovedNodeLinked(mem: Memory, tables: Tables, n: Node, i: nat, m: Node)
    requires CanRemove(mem, tables, n, i) && m in tables && m != Child(n, i)
    ensures NodeLinked(Store(mem, tables[n], i, UNUSED), tables - {Child(n, i)}, m)
  {
    var c := Child(n, i);
    var mem1, tables1 := Store(mem, tables[n], i, UNUSED), tables - {c};
    ChildEmpty(mem, tables, n, i);
    ParentOfChild(n, i);
    assert NodeLinked(mem, tables, n);
    assert NodeLinked(mem, tables, m);
    forall k | 0 <= k < ENTRIES && m.level > 1 && Plain(m, k)
      ensures EntryLinked(mem1, tables1, m, k)
    {
      assert EntryLinked(mem, tables, m, k);
      ParentOfChild(m, k);
    }
  }

  lemma RemoveKeepsLinked(mem: Memory, tables: Tables, n: Node, i: nat)
    requires CanRemove(mem, tables, n, i)
    ensures Linked(Store(mem, tables[n], i, UNUSED), tables - {Child(n, i)})
  {
    var c := Child(n, i);
    var mem1, tables1 := Store(mem, tables[n], i, UNUSED), tables - {c};
    assert NodeLinked(mem, tables, n);
    forall m | m in tables1
      ensures NodeLinked(mem1, tables1, m)
    {
      RemovedNodeLinked(mem, tables, n, i, m);
    }
    assert NodeLinked(mem, tables, ROOT);
    assert c != ROOT;
  }

  lemma RemoveKeepsView(mem: Memory, tables: Tables, n: Node, i: nat, pn: nat)
    requires CanRemove(mem, tables, n, i) && Ordinary(pn)
    ensures AgreeAt(mem, tables, Store(mem, tables[n], i, UNUSED), tables - {Child(n, i)}, pn)
  {
    RemoveKeepsLinked(mem, tables, n, i);
    assert NodeLinked(mem, tables, n);
    if NodeOn(pn, n.level - 1) == Child(n, i) {
      RemovedOnPath(mem, tables, n, i, pn);
    } else {
      RemovedOffPath(mem, tables, n, i, pn);
    }
  }

  lemma RemovedOnPath(mem: Memory, tables: Tables, n: Node, i: nat, pn: nat)
    requires CanRemove(mem, tables, n, i) && Ordinary(pn) && NodeOn(pn, n.level - 1) == Child(n, i) && n.level <= 4
    requires Linked(Store(mem, tables[n], i, UNUSED), tables - {Child(n, i)})
    ensures AgreeAt(mem, tables, Store(mem, tables[n], i, UNUSED), tables - {Child(n, i)}, pn)
  {
    hide HwWalk, Walk, Up;
    var c := Child(n, i);
    var mem1, tables1 := Store(mem, tables[n], i, UNUSED), tables - {c};
    ChildEmpty(mem, tables, n, i);
    ParentOfChild(n, i);
    ChildOnPath(pn, n.level);
    ParentOfChild(NodeOn(pn, n.level), Index(pn, n.level));
    forall k | 1 <= k < c.level
      ensures NodeOn(pn, k) !in tables
    {
      if NodeOn(pn, k) in tables {
        ChildOnPath(pn, c.level);
        PathClosed(mem, tables, pn, k, c.level - 1);
      }
    }
    assert Deepest(tables, pn) == c.level;
    assert Deepest(tables1, pn) == n.level;
    BothUnused(mem, tables, mem1, tables1, pn);
  }

  lemma RemovedOffPath(mem: Memory, tables: Tables, n: Node, i: nat, pn: nat)
    requires CanRemove(mem, tables, n, i) && Ordinary(pn) && NodeOn(pn, n.level - 1) != Child(n, i) && n.level <= 4
    requires Linked(Store(mem, tables[n], i, UNUSED), tables - {Child(n, i)})
    ensures AgreeAt(mem, tables, Store(mem, tables[n], i, UNUSED), tables - {Child(n, i)}, pn)
  {
    hide HwWalk, Walk, Up;
    var c := Child(n, i);
    var mem1, tables1 := Store(mem, tables[n], i, UNUSED), tables - {c};
    var d := Deepest(tables, pn);
    WalkIsDeepest(mem, tables, pn);
    assert Deepest(tables1, pn) == d;
    assert NodeLinked(mem, tables, NodeOn(pn, d));
    if NodeOn(pn, d) == n {
      ChildOnPath(pn, d);
      assert Index(pn, d) != i;
    }
    SameEnd(mem, tables, mem1, tables1, pn);
  }

  // ----- no table but the root is ever left empty -----

  ghost predicate Tidy(mem: Memory, tables: Tables) {
    && Linked(mem, tables)
    && forall n :: n in tables && n.level < 4 ==> NonEmpty(mem, tables, n)
  }

  /** Only tables on the path of page pn may be empty: while a page is being mapped. */
  ghost predicate TidyOff(mem: Memory, tables: Tables, pn: nat) {
    && Linked(mem, tables)
    && forall n :: n in tables && n.level < 4 && n != NodeOn(pn, n.level) ==> NonEmpty(mem, tables, n)
  }

  /** Only the table of one level on the path of pn may be empty: while tables are freed. */
  ghost predicate TidyBut(mem: Memory, tables: Tables, pn: nat, level: nat) {
    && Linked(mem, tables)
    && forall n :: n in tables && n.level < 4 && n != NodeOn(pn, level) ==> NonEmpty(mem, tables, n)
  }

  lemma AddKeepsTidyOff(mem: Memory, tables: Tables, pn: nat, level: nat, f: nat)
    requires 1 < level <= 4 && CanAdd(mem, tables, NodeOn(pn, level), Index(pn, level), f)
    requires TidyOff(mem, tables, pn)
    ensures TidyOff(AddMem(mem, tables, NodeOn(pn, level), Index(pn, level), f), tables[NodeOn(pn, level - 1) := f], pn)
  {
    var n, i := NodeOn(pn, level), Index(pn, level);
    ChildOnPath(pn, level);
    AddKeepsLinked(mem, tables, n, i, f);
    ChildFresh(mem, tables, n, i);
    var mem1, tables1 := AddMem(mem, tables, n, i, f), tables[NodeOn(pn, level - 1) := f];
    forall m | m in tables1 && m.level < 4 && m != NodeOn(pn, m.level)
      ensures NonEmpty(mem1, tables1, m)
    {
      assert NonEmpty(mem, tables, m);
      var k :| 0 <= k < ENTRIES && EntryOf(mem, tables, m, k) != UNUSED;
      assert tables[m] != f && tables[m] != tables[n];
      assert EntryOf(mem1, tables1, m, k) != UNUSED;
    }
  }

  /** A live child makes its parent non-empty. */
  lemma LiveChildNonEmpty(mem: Memory, tables: Tables, m: Node)
    requires Linked(mem, tables) && m in tables && m.level < 4
    ensures NonEmpty(mem, tables, Parent(m))
  {
    LiveEntry(mem, tables, m);
    assert EntryOf(mem, tables, Parent(m), m.id % ENTRIES) != UNUSED;
  }

  lemma LeafMakesTidy(mem: Memory, tables: Tables, pn: nat)
    requires TidyOff(mem, tables, pn) && NodeOn(pn, 1) in tables && Entry(mem, tables, pn) != UNUSED
    ensures Tidy(mem, tables)
  {
    forall n | n in tables && n.level < 4
      ensures NonEmpty(mem, tables, n)
    {
      assert NodeLinked(mem, tables, n);
      if n == NodeOn(pn, n.level) && n.level > 1 {
        PathClosed(mem, tables, pn, 1, n.level - 1);
        ChildOnPath(pn, n.level);
        LiveChildNonEmpty(mem, tables, NodeOn(pn, n.level - 1));
      }
    }
  }

  lemma SetLeafTidyOff(mem: Memory, tables: Tables, pn: nat, e: Pte)
    requires TidyOff(mem, tables, pn) && NodeOn(pn, 1) in tables
    ensures HasTable(mem, tables, NodeOn(pn, 1))
    ensures TidyOff(Store(mem, tables[NodeOn(pn, 1)], Index(pn, 1), e), tables, pn)
  {
    var n, i := NodeOn(pn, 1), Index(pn, 1);
    SetLeafKeepsLinked(mem, tables, n, i, e);
    var mem1 := Store(mem, tables[n], i, e);
    forall m | m in tables && m.level < 4 && m != NodeOn(pn, m.level)
      ensures NonEmpty(mem1, tables, m)
    {
      assert NonEmpty(mem, tables, m);
      var k :| 0 <= k < ENTRIES && EntryOf(mem, tables, m, k) != UNUSED;
      assert EntryOf(mem1, tables, m, k) != UNUSED;
    }
  }

  lemma TidyOffIsTidyBut(mem: Memory, tables: Tables, pn: nat)
    requires TidyOff(mem, tables, pn) && NodeOn(pn, 1) in tables
    ensures TidyBut(mem, tables, pn, 1)
  {
    forall n | n in tables && n.level < 4 && n != NodeOn(pn, 1)
      ensures NonEmpty(mem, tables, n)
    {
      assert NodeLinked(mem, tables, n);
      if n == NodeOn(pn, n.level) {
        PathClosed(mem, tables, pn, 1, n.level - 1);
        ChildOnPath(pn, n.level);
        LiveChildNonEmpty(mem, tables, NodeOn(pn, n.level - 1));
      }
    }
  }

  /** Freeing the empty table of a level leaves at most the next level's table empty. */
  lemma RemoveKeepsTidyBut(mem: Memory, tables: Tables, pn: nat, level: nat)
    requires 1 < level <= 4 && CanRemove(mem, tables, NodeOn(pn, level), Index(pn, level))
    requires TidyBut(mem, tables, pn, level - 1)
    ensures TidyBut(Store(mem, tables[NodeOn(pn, level)], Index(pn, level), UNUSED), tables - {NodeOn(pn, level - 1)},
        pn, level)
  {
    var n, i := NodeOn(pn, level), Index(pn, level);
    ChildOnPath(pn, level);
    RemoveKeepsLinked(mem, tables, n, i);
    var mem1, tables1 := Store(mem, tables[n], i, UNUSED), tables - {NodeOn(pn, level - 1)};
    forall m | m in tables1 && m.level < 4 && m != n
      ensures NonEmpty(mem1, tables1, m)
    {
      assert NonEmpty(mem, tables, m);
      var k :| 0 <= k < ENTRIES && EntryOf(mem, tables, m, k) != UNUSED;
      assert EntryOf(mem1, tables1, m, k) != UNUSED;
    }
  }

  // ----- the pages in use determine the live tables -----

  /** Page pn uses a table of this level: its leaf is not unused, or a huge entry of the level
      or below maps it. */
  ghost predicate Occupied(mem: Memory, tables: Tables, pn: nat, level: nat) {
    || Entry(mem, tables, pn) != UNUSED
    || (Walk(mem, tables, pn).Page? && Walk(mem, tables, pn).level <= level)
  }

  lemma {:induction false} PagesUnderLive(mem: Memory, tables: Tables, pn: nat, level: nat)
    requires Linked(mem, tables) && 1 <= level <= 3 && NodeOn(pn, level) in tables
    ensures Ordinary(pn)
    decreases 4 - level
  {
    assert NodeLinked(mem, tables, NodeOn(pn, level));
    ChildOnPath(pn, level + 1);
    if level < 3 {
      PagesUnderLive(mem, tables, pn, level + 1);
    } else {
      assert NodeLinked(mem, tables, NodeOn(pn, 4));
      assert Up(pn, 4) == 0;
      PageBound(pn);
    }
  }

  lemma PageBound(pn: nat)
    requires Up(pn, 4) == 0 && Up(pn, 3) % ENTRIES != SELF
    ensures Ordinary(pn)
  {
    assert Up(pn, 1) == pn / 512;
    assert Up(pn, 2) == pn / 512 / 512;
    assert Up(pn, 3) == pn / 512 / 512 / 512;
    assert Up(pn, 4) == Up(pn, 3) / 512;
  }

  /** The first page below entry x of a level. */
  function FirstUnder(x: nat, k: nat): (pn: nat)
    ensures Up(pn, k) == x
    decreases k
  {
    if k == 0 then x else FirstUnder(x * ENTRIES, k - 1)
  }

  /** Below every live table but the root there is a page in use. */
  lemma {:induction false} LiveHasPage(mem: Memory, tables: Tables, n: Node) returns (pn: nat)
    requires Tidy(mem, tables) && n in tables && n.level < 4
    ensures Ordinary(pn) && NodeOn(pn, n.level) == n && Occupied(mem, tables, pn, n.level)
    decreases n.level
  {
    hide HwWalk, Walk;
    assert NodeLinked(mem, tables, n) && NonEmpty(mem, tables, n);
    var i :| 0 <= i < ENTRIES && EntryOf(mem, tables, n, i) != UNUSED;
    var x := n.id * ENTRIES + i;
    assert x / ENTRIES == n.id && x % ENTRIES == i;
    if n.level > 1 {
      assert EntryLinked(mem, tables, n, i);
      if Child(n, i) in tables {
        pn := LiveHasPage(mem, tables, Child(n, i));
        ChildOnPath(pn, n.level);
        return;
      }
    }
    pn := FirstUnder(x, n.level - 1);
    LeafBelow(mem, tables, n, i, pn);
  }

  /** An entry in use below which no table lives is the entry of the pages under it. */
  lemma LeafBelow(mem: Memory, tables: Tables, n: Node, i: nat, pn: nat)
    requires Tidy(mem, tables) && n in tables && 1 <= n.level < 4 && i < ENTRIES && EntryOf(mem, tables, n, i) != UNUSED
    requires n.level > 1 ==> Child(n, i) !in tables
    requires Up(pn, n.level - 1) == n.id * ENTRIES + i
    ensures Ordinary(pn) && NodeOn(pn, n.level) == n && Occupied(mem, tables, pn, n.level)
  {
    hide HwWalk, Walk;
    assert NodeLinked(mem, tables, n);
    var x := n.id * ENTRIES + i;
    assert x / ENTRIES == n.id && x % ENTRIES == i;
    assert Up(pn, n.level) == n.id && Index(pn, n.level) == i;
    PagesUnderLive(mem, tables, pn, n.level);
    WalkIsDeepest(mem, tables, pn);
    if n.level > 1 {
      assert EntryLinked(mem, tables, n, i);
      ChildOnPath(pn, n.level);
      forall k | 1 <= k < n.level
        ensures NodeOn(pn, k) !in tables
      {
        if NodeOn(pn, k) in tables {
          PathClosed(mem, tables, pn, k, n.level - 1);
        }
      }
    }
  }

  lemma OccupiedIsLive(mem: Memory, tables: Tables, pn: nat, level: nat)
    requires Linked(mem, tables) && Ordinary(pn) && 1 <= level <= 4 && Occupied(mem, tables, pn, level)
    ensures NodeOn(pn, level) in tables
  {
    WalkIsDeepest(mem, tables, pn);
    var d := Deepest(tables, pn);
    if Entry(mem, tables, pn) != UNUSED {
      PathClosed(mem, tables, pn, 1, level);
    } else {
      PathClosed(mem, tables, pn, d, level);
    }
  }

  /** Two tidy sets of tables that show every page alike consist of the same tables. */
  lemma SameViewSameTables(mem: Memory, tables: Tables, mem1: Memory, tables1: Tables)
    requires Tidy(mem, tables) && Tidy(mem1, tables1)
    requires forall pn :: Ordinary(pn) ==> AgreeAt(mem, tables, mem1, tables1, pn)
    ensures tables.Keys == tables1.Keys
  {
    forall n | n in tables
      ensures n in tables1
    {
      assert NodeLinked(mem, tables, n);
      if n.level < 4 {
        var pn := LiveHasPage(mem, tables, n);
        assert AgreeAt(mem, tables, mem1, tables1, pn);
        OccupiedIsLive(mem1, tables1, pn, n.level);
      }
    }
    forall n | n in tables1
      ensures n in tables
    {
      assert NodeLinked(mem1, tables1, n);
      if n.level < 4 {
        var pn := LiveHasPage(mem1, tables1, n);
        assert AgreeAt(mem, tables, mem1, tables1, pn);
        OccupiedIsLive(mem, tables, pn, n.level);
      }
    }
  }
}
