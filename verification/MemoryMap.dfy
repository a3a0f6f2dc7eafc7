/** The boot memory map of kernel/mem/memory.c: an array of (start, type) entries in
    decreasing order of start, closed by the entry whose start is 0.  An entry covers the
    addresses from its start up to the start of the entry before it. */
module MemoryMap {
  import opened Common

  const MMAP_MAX_NUM_ENTRIES := 128

  const REGION_TYPE_NONE := 0
  const REGION_TYPE_AVAIL := 1
  const REGION_TYPE_MULTIBOOT2 := 2
  const REGION_TYPE_KERNEL := 3
  const REGION_TYPE_ACPI_RECLAIM := 4
  const REGION_TYPE_ACPI_NVS := 5
  const REGION_TYPE_RSVD := 6
  const REGION_TYPE_MASK := 7

  datatype Region = Region(start: nat, typ: nat)

  /** REGION_NEW keeps start and type apart in one word, and they survive exactly when the start is a
      page of 56 bits and the type has three bits. */
  lemma RegionWord(addr: bv64, typ: bv64)
    ensures ((addr & 0x00ff_ffff_ffff_f000) | (typ & 7)) & 0x00ff_ffff_ffff_f000 == addr
            <==> addr & 0xff00_0000_0000_0fff == 0
    ensures ((addr & 0x00ff_ffff_ffff_f000) | (typ & 7)) & 7 == typ <==> typ < 8
  {
  }

  /** REGION_SET_START and REGION_SET_TYPE change one of the two only. */
  lemma RegionWordSet(word: bv64, addr: bv64, typ: bv64)
    requires addr & 0xff00_0000_0000_0fff == 0 && typ < 8
    ensures ((word & 7) | addr) & 0x00ff_ffff_ffff_f000 == addr && ((word & 7) | addr) & 7 == word & 7
    ensures ((word & 0x00ff_ffff_ffff_f000) | typ) & 0x00ff_ffff_ffff_f000 == word & 0x00ff_ffff_ffff_f000
    ensures ((word & 0x00ff_ffff_ffff_f000) | typ) & 7 == typ
  {
  }

  // ----- what a map means -----

  /** The type of address p: the first entry that starts at or below it decides. */
  function TypeAt(c: seq<Region>, p: nat): nat {
    if c == [] then 0
    else if c[0].start <= p then c[0].typ
    else TypeAt(c[1..], p)
  }

  /** Starts never increase, begin at or below `bound`, and only the last one is 0. */
  predicate OrderedFrom(c: seq<Region>, bound: nat) {
    && c != []
    && c[0].start <= bound
    && (if |c| == 1 then c[0].start == 0
        else c[0].start > 0 && OrderedFrom(c[1..], c[0].start))
  }

  predicate Ordered(c: seq<Region>) {
    c != [] && OrderedFrom(c, c[0].start)
  }

  /** The one entry with start 0 comes last. */
  predicate Terminated(c: seq<Region>) {
    && c != []
    && c[|c| - 1].start == 0
    && forall i :: 0 <= i < |c| - 1 ==> c[i].start > 0
  }

  /** The type an address should have after [start, end) was raised to `typ`. */
  function Raised(was: nat, p: nat, start: nat, end: nat, typ: nat): nat {
    if start <= p < end && was < typ then typ else was
  }

  // ----- what inserting a region computes -----

  /** Index of the first entry that starts at or below `at`. */
  function First(c: seq<Region>, at: nat): (i: nat)
    ensures i <= |c|
    ensures forall k :: 0 <= k < i ==> c[k].start > at
    ensures i < |c| ==> c[i].start <= at
  {
    if c == [] || c[0].start <= at then 0 else 1 + First(c[1..], at)
  }

  function Prepend(pre: seq<Region>, c: Option<seq<Region>>): Option<seq<Region>> {
    match c
    case None => None
    case Some(v) => Some(pre + v)
  }

  /** The sweep once the upper end is aligned.  `c` is the part of the map still to be
      swept; its entries 0 to n-1 start above `start` and entry n holds `start`.  None stands
      for a run that reads entries behind the terminator. */
  function Sweep(rev: Revision, c: seq<Region>, n: nat, start: nat, typ: nat): Option<seq<Region>>
    requires n < |c|
    decreases n
  {
    if n == 0 then
      if c[0].typ >= typ then Some(c)
      else if c[0].start == start then Some([Region(start, typ)] + c[1..])
      else Some([Region(start, typ)] + c)
    else if c[0].typ >= typ then
      Prepend([c[0]], Sweep(rev, c[1..], n - 1, start, typ))
    else if c[1].typ == typ then
      match rev
      case Documented => Sweep(rev, c[1..], n - 1, start, typ)
      case AsWritten =>
        if |c| == 2 then None else Sweep(rev, [c[0]] + c[2..], n - 1, start, typ)
    else
      Prepend([Region(c[0].start, typ)], Sweep(rev, c[1..], n - 1, start, typ))
  }

  /** What lines 106-116 make of the first two entries when they all run. */
  function Spilt(c: seq<Region>, end: nat, typ: nat): (r: seq<Region>)
    requires |c| >= 2
    ensures |r| == 3
  {
    [Region(end, c[0].typ), Region(c[0].start, typ), Region(end, c[1].typ)]
  }

  /** The part of the map from the entry that holds `end` downwards, before the sweep. */
  function InsertBelow(rev: Revision, c: seq<Region>, n: nat, start: nat, end: nat, typ: nat): Option<seq<Region>>
    requires n < |c|
  {
    var top := c[0];
    if top.typ >= typ then
      if n == 0 then Some(c) else Prepend([top], Sweep(rev, c[1..], n - 1, start, typ))
    else if n == 0 then
      if end == 0 then Some([Region(end, top.typ)])  // start > end: the cut entry closes the map
      else Some([Region(end, top.typ), Region(start, typ)] + if top.start == start then c[1..] else c)
    else if c[1].typ == typ then
      Prepend([Region(end, top.typ)], Sweep(rev, c[1..], n - 1, start, typ))
    else
      match rev
      case Documented =>
        Prepend([Region(end, top.typ), Region(top.start, typ)], Sweep(rev, c[1..], n - 1, start, typ))
      case AsWritten =>
        if n >= 2 then Prepend(Spilt(c, end, typ), Sweep(rev, c[2..], n - 2, start, typ))
        else if |c| == 2 then None
        else if c[2].typ >= typ then Some(Spilt(c, end, typ) + c[2..])
        else Some([Region(end, top.typ), Region(top.start, typ)]
                  + ([Region(start, typ), Region(end, c[1].typ)] + c[2..]))
  }

  /** The index of the entry that holds `start`, searched from the entry that holds `end`. */
  function StartIdx(c: seq<Region>, start: nat, end: nat): (s: nat)
    ensures First(c, end) <= s <= |c|
  {
    First(c, end) + First(c[First(c, end)..], start)
  }

  function Insert(rev: Revision, c: seq<Region>, start: nat, end: nat, typ: nat): Option<seq<Region>>
    requires Terminated(c)
  {
    if start == end then Some(c)
    else
      FirstInRange(c, start, end);
      var e := First(c, end);
      Prepend(c[..e], InsertBelow(rev, c[e..], StartIdx(c, start, end) - e, start, end, typ))
  }

  // ----- facts about ordered lists -----

  lemma {:induction false} OrderedIsTerminated(c: seq<Region>, bound: nat)
    requires OrderedFrom(c, bound)
    ensures Terminated(c)
  {
    if |c| > 1 {
      OrderedIsTerminated(c[1..], c[0].start);
      assert forall i :: 0 < i < |c| - 1 ==> c[i] == c[1..][i - 1];
    }
  }

  lemma {:induction false} OrderedSuffix(c: seq<Region>, bound: nat, k: nat)
    requires OrderedFrom(c, bound) && k < |c|
    ensures OrderedFrom(c[k..], if k == 0 then bound else c[k - 1].start)
  {
    if k > 0 {
      OrderedSuffix(c[1..], c[0].start, k - 1);
      assert c[1..][k - 1..] == c[k..];
    } else {
      assert c[0..] == c;
    }
  }

  lemma FirstInRange(c: seq<Region>, start: nat, end: nat)
    requires Terminated(c)
    ensures First(c, end) <= StartIdx(c, start, end) < |c|
  {
    var e := First(c, end);
    assert e < |c|;
    assert c[e..][|c| - 1 - e] == c[|c| - 1];
  }

  /** Lookup in a concatenation: the front decides if it covers the address at all. */
  lemma {:induction false} TypeAtAppend(a: seq<Region>, b: seq<Region>, p: nat)
    ensures TypeAt(a + b, p) == if exists k :: 0 <= k < |a| && a[k].start <= p then TypeAt(a, p) else TypeAt(b, p)
  {
    if a == [] {
      assert a + b == b;
    } else {
      assert (a + b)[1..] == a[1..] + b;
      TypeAtAppend(a[1..], b, p);
      assert forall k :: 0 < k < |a| ==> a[k] == a[1..][k - 1];
      if a[0].start > p && exists k :: 0 <= k < |a[1..]| && a[1..][k].start <= p {
        var k :| 0 <= k < |a[1..]| && a[1..][k].start <= p;
        assert a[k + 1].start <= p;
      }
    }
  }

  /** A front part whose entries all start above b[0] may precede any ordered b. */
  lemma {:induction false} OrderedAppend(a: seq<Region>, b: seq<Region>, c: seq<Region>, bound: nat, limit: nat)
    requires OrderedFrom(a + c, bound) && c != []
    requires OrderedFrom(b, limit)
    requires forall k :: 0 <= k < |a| ==> a[k].start >= limit && a[k].start > 0
    requires a == [] ==> limit <= bound
    ensures OrderedFrom(a + b, bound)
  {
    if a == [] {
      assert a + b == b;
      if b[0].start <= bound {}
    } else {
      assert (a + c)[1..] == a[1..] + c;
      assert (a + b)[1..] == a[1..] + b;
      assert |a + c| > 1;
      OrderedAppend(a[1..], b, c, a[0].start, limit);
    }
  }

  // ----- the repaired sweep raises exactly [start, ..) -----

  lemma {:induction false} SweepRaises(c: seq<Region>, n: nat, start: nat, typ: nat, bound: nat)
    requires OrderedFrom(c, bound) && n < |c| && start <= bound
    requires forall k :: 0 <= k < n ==> c[k].start > start
    requires c[n].start <= start
    ensures Sweep(Documented, c, n, start, typ).Some?
    ensures OrderedFrom(Sweep(Documented, c, n, start, typ).value, bound)
    ensures forall p: nat ::
      TypeAt(Sweep(Documented, c, n, start, typ).value, p)
      == if start <= p then Max(TypeAt(c, p), typ) else TypeAt(c, p)
    decreases n
  {
    var rest := c[1..];
    if n == 0 {
      forall p: nat
        ensures TypeAt(Sweep(Documented, c, n, start, typ).value, p)
             == if start <= p then Max(TypeAt(c, p), typ) else TypeAt(c, p)
      {
        assert ([Region(start, typ)] + c)[1..] == c;
        assert ([Region(start, typ)] + rest)[1..] == rest;
      }
      assert ([Region(start, typ)] + c)[1..] == c;
      assert ([Region(start, typ)] + rest)[1..] == rest;
    } else {
      assert forall k :: 0 <= k < n - 1 ==> rest[k] == c[k + 1];
      assert rest[n - 1] == c[n];
      SweepRaises(rest, n - 1, start, typ, c[0].start);
      var r := Sweep(Documented, rest, n - 1, start, typ).value;
      assert ([c[0]] + r)[1..] == r;
      assert ([Region(c[0].start, typ)] + r)[1..] == r;
    }
  }

  // ----- inserting raises exactly [start, end) -----

  /** `r` replaces the part `c` of a map that lies below `bound`: it is ordered and exactly the
      addresses of [start, end) were raised. */
  ghost predicate RaisedBelow(r: Option<seq<Region>>, c: seq<Region>, start: nat, end: nat, typ: nat, bound: nat) {
    && r.Some?
    && OrderedFrom(r.value, bound)
    && forall p: nat | p < bound :: TypeAt(r.value, p) == Raised(TypeAt(c, p), p, start, end, typ)
  }

  /** What mmap_insert_region is for: the pointwise maximum on [start, end), an ordered map. */
  ghost predicate IsRaised(r: Option<seq<Region>>, c: seq<Region>, start: nat, end: nat, typ: nat) {
    && r.Some?
    && Ordered(r.value)
    && forall p: nat :: TypeAt(r.value, p) == Raised(TypeAt(c, p), p, start, end, typ)
  }

  /** The entry that holds `end` is c[0]; the entry that holds `start` is c[n]. */
  ghost predicate Window(c: seq<Region>, n: nat, start: nat, end: nat, bound: nat) {
    && OrderedFrom(c, bound) && n < |c|
    && start < end < bound
    && c[0].start <= end
    && (forall k :: 0 <= k < n ==> c[k].start > start)
    && c[n].start <= start
  }

  lemma InsertBelowRaises(c: seq<Region>, n: nat, start: nat, end: nat, typ: nat, bound: nat)
    requires Window(c, n, start, end, bound)
    ensures RaisedBelow(InsertBelow(Documented, c, n, start, end, typ), c, start, end, typ, bound)
  {
    hide RaisedBelow, Sweep, InsertBelow;
    if n == 0 {
      OneEntryRaises(c, start, end, typ, bound);
    } else {
      TopRaises(c, n, start, end, typ, bound);
    }
  }

  lemma OneEntryRaises(c: seq<Region>, start: nat, end: nat, typ: nat, bound: nat)
    requires Window(c, 0, start, end, bound)
    ensures RaisedBelow(InsertBelow(Documented, c, 0, start, end, typ), c, start, end, typ, bound)
  {
    var top := c[0];
    assert ([Region(end, top.typ), Region(start, typ)] + c)[1..] == [Region(start, typ)] + c;
    assert ([Region(start, typ)] + c)[1..] == c;
    assert ([Region(end, top.typ), Region(start, typ)] + c[1..])[1..] == [Region(start, typ)] + c[1..];
    assert ([Region(start, typ)] + c[1..])[1..] == c[1..];
  }

  lemma TopRaises(c: seq<Region>, n: nat, start: nat, end: nat, typ: nat, bound: nat)
    requires Window(c, n, start, end, bound) && n > 0
    ensures RaisedBelow(InsertBelow(Documented, c, n, start, end, typ), c, start, end, typ, bound)
  {
    var top := c[0];
    assert forall k :: 0 <= k < n - 1 ==> c[1..][k] == c[k + 1];
    SweepRaises(c[1..], n - 1, start, typ, top.start);
    var w := Sweep(Documented, c[1..], n - 1, start, typ).value;
    if top.typ >= typ {
      assert ([top] + w)[1..] == w;
    } else if c[1].typ == typ {
      assert ([Region(end, top.typ)] + w)[1..] == w;
    } else {
      assert ([Region(end, top.typ), Region(top.start, typ)] + w)[1..] == [Region(top.start, typ)] + w;
      assert ([Region(top.start, typ)] + w)[1..] == w;
    }
  }

  /** The start of the entry before the window, or a bound just above `end`. */
  function BoundOf(c: seq<Region>, e: nat, end: nat): nat
    requires e <= |c|
  {
    if e == 0 then end + 1 else c[e - 1].start
  }

  lemma WindowOf(c: seq<Region>, start: nat, end: nat)
    requires Ordered(c) && start < end
    ensures StartIdx(c, start, end) < |c|
    ensures var e := First(c, end);
            Window(c[e..], StartIdx(c, start, end) - e, start, end, BoundOf(c, e, end))
  {
    OrderedIsTerminated(c, c[0].start);
    FirstInRange(c, start, end);
    OrderedSuffix(c, c[0].start, First(c, end));
  }

  /** Replacing the lower part of a map changes lookups below its bound only. */
  lemma LookupSplit(c: seq<Region>, e: nat, low: seq<Region>, bound: nat, p: nat)
    requires Ordered(c) && e < |c| && low != []
    requires e > 0 ==> bound == c[e - 1].start
    ensures (e == 0 || p < bound) ==> TypeAt(c[..e] + low, p) == TypeAt(low, p)
    ensures (e > 0 && p >= bound) ==> TypeAt(c[..e] + low, p) == TypeAt(c, p)
  {
    var head := c[..e];
    if e == 0 {
      assert head + low == low;
    } else {
      assert head + c[e..] == c;
      HeadStarts(c, c[0].start, e);
      TypeAtAppend(head, c[e..], p);
      TypeAtAppend(head, low, p);
      if p >= bound {
        assert head[e - 1].start <= p;
      }
    }
  }

  /** A replacement of the lower part is right for the whole map exactly when it is right
      below its bound. */
  lemma WholeMap(c: seq<Region>, low: Option<seq<Region>>, start: nat, end: nat, typ: nat)
    requires Ordered(c) && start < end && First(c, end) < |c|
    requires low.Some? ==> low.value != [] && low.value[0].start <= end
    ensures var e := First(c, end);
            IsRaised(Prepend(c[..e], low), c, start, end, typ)
            <==> RaisedBelow(low, c[e..], start, end, typ, BoundOf(c, e, end))
  {
    if low.Some? {
      var e := First(c, end);
      var head, rest, bound := c[..e], c[e..], BoundOf(c, e, end);
      var r := head + low.value;
      assert head + rest == c;
      forall p: nat
        ensures (e == 0 || p < bound) ==> TypeAt(r, p) == TypeAt(low.value, p) && TypeAt(c, p) == TypeAt(rest, p)
        ensures (e > 0 && p >= bound) ==> TypeAt(r, p) == TypeAt(c, p)
      {
        LookupSplit(c, e, low.value, bound, p);
        LookupSplit(c, e, rest, bound, p);
      }
      if RaisedBelow(low, rest, start, end, typ, bound) {
        if e == 0 {
          assert r == low.value && rest == c;
          forall p: nat
            ensures TypeAt(r, p) == Raised(TypeAt(c, p), p, start, end, typ)
          {
            if p >= bound {
              assert TypeAt(r, p) == TypeAt(r, end);
            }
          }
        } else {
          HeadStarts(c, c[0].start, e);
          OrderedAppend(head, low.value, rest, c[0].start, bound);
        }
      }
      if IsRaised(Some(r), c, start, end, typ) {
        OrderedSuffix(r, r[0].start, e);
        assert r[e..] == low.value;
        if e > 0 {
          assert r[e - 1] == c[e - 1];
        }
      }
    }
  }

  lemma {:induction false} HeadStarts(c: seq<Region>, bound: nat, e: nat)
    requires OrderedFrom(c, bound) && 0 < e <= |c|
    ensures forall k :: 0 <= k < e ==> c[k].start >= c[e - 1].start
  {
    if e > 1 {
      HeadStarts(c[1..], c[0].start, e - 1);
      assert forall k :: 0 < k < e ==> c[k] == c[1..][k - 1];
      assert c[1].start <= c[0].start;
    }
  }

  /** Inserting a region is the pointwise maximum, for every map, range and type. */
  lemma InsertIsPointwiseMax(c: seq<Region>, start: nat, end: nat, typ: nat)
    requires Terminated(c) && Ordered(c) && start <= end
    ensures IsRaised(Insert(Documented, c, start, end, typ), c, start, end, typ)
  {
    if start < end {
      WindowOf(c, start, end);
      var e := First(c, end);
      var n := StartIdx(c, start, end) - e;
      var low := InsertBelow(Documented, c[e..], n, start, end, typ);
      InsertBelowRaises(c[e..], n, start, end, typ, BoundOf(c, e, end));
      LowStart(Documented, c[e..], n, start, end, typ);
      WholeMap(c, low, start, end, typ);
    }
  }

  lemma LowStart(rev: Revision, c: seq<Region>, n: nat, start: nat, end: nat, typ: nat)
    requires n < |c| && c[0].start <= end
    ensures var r := InsertBelow(rev, c, n, start, end, typ);
            r.Some? ==> r.value != [] && r.value[0].start <= end
  {
  }

  // ----- exactly when the code as it stands does the same -----

  /** While sweeping entry 0, line 98 is harmless: the entry of type `typ` it deletes is empty,
      or the entry below it is no stronger and will be raised too; and there is such an entry
      within the window. */
  predicate SweepSafe(c: seq<Region>, n: nat, typ: nat)
    requires n < |c|
    decreases n
  {
    if n == 0 then true
    else if c[0].typ < typ && c[1].typ == typ then
      && n >= 2
      && (c[1].start == c[0].start || c[2].typ <= typ)
      && SweepSafe([c[0]] + c[2..], n - 1, typ)
    else SweepSafe(c[1..], n - 1, typ)
  }

  /** The same for the first step: lines 106-113 are not taken, or the second pass through
      lines 114-116 that follows them does no harm. */
  predicate InsertBelowSafe(c: seq<Region>, n: nat, start: nat, end: nat, typ: nat)
    requires n < |c|
  {
    if n == 0 then true
    else if c[0].typ >= typ || c[1].typ == typ then SweepSafe(c[1..], n - 1, typ)
    else
      && c[0].start == end
      && (if n >= 2 then
            && (c[1].start == end || Max(typ, c[2].typ) == Max(typ, c[1].typ))
            && SweepSafe(c[2..], n - 2, typ)
          else
            && |c| > 2
            && c[2].typ == Max(typ, c[1].typ)
            && (c[1].start == start || c[2].typ == c[1].typ))
  }

  predicate InsertSafe(c: seq<Region>, start: nat, end: nat, typ: nat)
    requires Terminated(c)
  {
    start == end
    || (FirstInRange(c, start, end);
        var e := First(c, end);
        InsertBelowSafe(c[e..], StartIdx(c, start, end) - e, start, end, typ))
  }

  /** Ordered, and raised from `start` upwards. */
  ghost predicate Swept(r: Option<seq<Region>>, c: seq<Region>, start: nat, typ: nat, bound: nat) {
    && r.Some?
    && OrderedFrom(r.value, bound)
    && forall p: nat | p < bound :: TypeAt(r.value, p) == if start <= p then Max(TypeAt(c, p), typ) else TypeAt(c, p)
  }

  lemma SweptCons(c: seq<Region>, w: Option<seq<Region>>, start: nat, typ: nat, bound: nat)
    requires OrderedFrom(c, bound) && |c| > 1 && c[0].start > start
    ensures Swept(Prepend([Region(c[0].start, Max(c[0].typ, typ))], w), c, start, typ, bound)
       <==> Swept(w, c[1..], start, typ, c[0].start)
  {
    var first := Region(c[0].start, Max(c[0].typ, typ));
    if w.Some? {
      var r := [first] + w.value;
      assert r[1..] == w.value;
      if Swept(w, c[1..], start, typ, c[0].start) {
        assert OrderedFrom(r, bound);
        forall p: nat | p < bound
          ensures TypeAt(r, p) == if start <= p then Max(TypeAt(c, p), typ) else TypeAt(c, p)
        {
          assert TypeAt(r, p) == if c[0].start <= p then first.typ else TypeAt(w.value, p);
        }
      }
      if Swept(Some(r), c, start, typ, bound) {
        assert |r| > 1;
        forall p: nat | p < c[0].start
          ensures TypeAt(w.value, p) == if start <= p then Max(TypeAt(c[1..], p), typ) else TypeAt(c[1..], p)
        {
          assert TypeAt(r, p) == TypeAt(w.value, p);
        }
      }
    }
  }

  lemma SecondLookups(c: seq<Region>, p: nat)
    requires |c| > 2
    ensures TypeAt(c, p) == if c[0].start <= p then c[0].typ
                            else if c[1].start <= p then c[1].typ
                            else TypeAt(c[2..], p)
  {
    assert c[1..][1..] == c[2..];
    assert c[1..][0] == c[1];
  }

  /** Deleting c[1], which holds `typ`, in favour of c[2]. */
  lemma SweptDrop(c: seq<Region>, r: Option<seq<Region>>, start: nat, typ: nat, bound: nat)
    requires OrderedFrom(c, bound) && |c| > 2 && c[1].start > start
    requires c[1].typ == typ
    requires c[1].start == c[0].start || c[2].typ <= typ
    ensures OrderedFrom([c[0]] + c[2..], bound)
    ensures Swept(r, c, start, typ, bound) <==> Swept(r, [c[0]] + c[2..], start, typ, bound)
  {
    var d := [c[0]] + c[2..];
    assert d[1..] == c[2..];
    OrderedSuffix(c, bound, 2);
    forall p: nat
      ensures p >= start ==> Max(TypeAt(c, p), typ) == Max(TypeAt(d, p), typ)
      ensures p < start ==> TypeAt(c, p) == TypeAt(d, p)
    {
      SecondLookups(c, p);
      assert c[2..][0] == c[2];
    }
  }

  /** A stronger entry takes over the addresses of the deleted one, so they are not `typ`. */
  lemma StrongerSurvives(c: seq<Region>, d: seq<Region>, n: nat, start: nat, typ: nat)
    requires 2 <= n < |c| && d == [c[0]] + c[2..]
    requires c[0].start > c[1].start >= c[2].start && c[1].start > start
    requires c[0].typ < typ == c[1].typ < c[2].typ
    ensures var r := Sweep(AsWritten, d, n - 1, start, typ);
            r.Some? ==> TypeAt(r.value, c[1].start) == c[2].typ
  {
    assert d[1] == c[2] && d[1..][0] == c[2];
    var w := Sweep(AsWritten, d[1..], n - 2, start, typ);
    if w.Some? {
      assert w.value[0] == c[2];
      var r := [Region(c[0].start, typ)] + w.value;
      assert r[1..] == w.value;
    }
  }

  lemma {:induction false} SweepAsWrittenExact(c: seq<Region>, n: nat, start: nat, typ: nat, bound: nat)
    requires OrderedFrom(c, bound) && n < |c| && start < bound
    requires forall k :: 0 <= k < n ==> c[k].start > start
    requires c[n].start <= start
    ensures Swept(Sweep(AsWritten, c, n, start, typ), c, start, typ, bound) <==> SweepSafe(c, n, typ)
    decreases n
  {
    var r := Sweep(AsWritten, c, n, start, typ);
    var rest := c[1..];
    if n == 0 {
      SweepRaises(c, n, start, typ, bound);
    } else if c[0].typ < typ && c[1].typ == typ {
      if |c| > 2 {
        var d := [c[0]] + c[2..];
        assert d[1..] == c[2..];
        assert r == Sweep(AsWritten, d, n - 1, start, typ);
        assert forall k :: 0 < k < n - 1 ==> d[k] == c[k + 1];
        if n == 1 {
          assert r.value == [Region(start, typ)] + d;
          assert r.value[1..] == d;
          assert !OrderedFrom(d, start);
          assert !OrderedFrom(r.value, bound);
        } else {
          if c[1].start == c[0].start || c[2].typ <= typ {
            SweptDrop(c, r, start, typ, bound);
            SweepAsWrittenExact(d, n - 1, start, typ, bound);
          } else {
            OrderedSuffix(c, bound, 2);
            StrongerSurvives(c, d, n, start, typ);
            SecondLookups(c, c[1].start);
          }
        }
      }
    } else {
      assert forall k :: 0 <= k < n - 1 ==> rest[k] == c[k + 1];
      assert rest[n - 1] == c[n];
      SweepAsWrittenExact(rest, n - 1, start, typ, c[0].start);
      SweptCons(c, Sweep(AsWritten, rest, n - 1, start, typ), start, typ, bound);
    }
  }

  lemma InsertBelowAsWrittenExact(c: seq<Region>, n: nat, start: nat, end: nat, typ: nat, bound: nat)
    requires Window(c, n, start, end, bound)
    ensures RaisedBelow(InsertBelow(AsWritten, c, n, start, end, typ), c, start, end, typ, bound)
       <==> InsertBelowSafe(c, n, start, end, typ)
  {
    var top := c[0];
    if n == 0 {
      InsertBelowRaises(c, n, start, end, typ, bound);
    } else {
      OrderedSuffix(c, bound, 1);
      assert forall k :: 0 <= k < n - 1 ==> c[1..][k] == c[k + 1];
      if top.typ >= typ || c[1].typ == typ {
        SweepAsWrittenExact(c[1..], n - 1, start, typ, top.start);
        var first := if top.typ >= typ then top else Region(end, top.typ);
        RaisedCons(c, first, Sweep(AsWritten, c[1..], n - 1, start, typ), start, end, typ, bound);
      } else {
        FallThroughExact(c, n, start, end, typ, bound);
      }
    }
  }

  /** With entry 0 kept, or cut at `end` above an entry that is `typ` already, the rest has to
      be swept from `start`. */
  lemma RaisedCons(c: seq<Region>, first: Region, w: Option<seq<Region>>, start: nat, end: nat, typ: nat, bound: nat)
    requires OrderedFrom(c, bound) && |c| > 1 && start < c[0].start <= end < bound
    requires if c[0].typ >= typ then first == c[0]
             else first == Region(end, c[0].typ) && c[1].typ == typ && (w.Some? ==> w.value != [] && w.value[0] == c[1])
    ensures RaisedBelow(Prepend([first], w), c, start, end, typ, bound)
       <==> Swept(w, c[1..], start, typ, c[0].start)
  {
    if w.Some? {
      var r := [first] + w.value;
      assert r[1..] == w.value;
      if Swept(w, c[1..], start, typ, c[0].start) {
        assert OrderedFrom(r, bound);
        forall p: nat | p < bound
          ensures TypeAt(r, p) == Raised(TypeAt(c, p), p, start, end, typ)
        {
          assert TypeAt(r, p) == if first.start <= p then first.typ else TypeAt(w.value, p);
        }
      }
      if RaisedBelow(Some(r), c, start, end, typ, bound) {
        assert |r| > 1;
        forall p: nat | p < c[0].start
          ensures TypeAt(w.value, p) == if start <= p then Max(TypeAt(c[1..], p), typ) else TypeAt(c[1..], p)
        {
          assert TypeAt(r, p) == TypeAt(w.value, p);
          assert TypeAt(c, p) == TypeAt(c[1..], p);
        }
        assert OrderedFrom(w.value, first.start);
        assert OrderedFrom(w.value, c[0].start);
      }
    }
  }

  /** Above its own first entry the sweep raises that entry's type. */
  lemma {:induction false} SweepHead(c: seq<Region>, n: nat, start: nat, typ: nat, bound: nat)
    requires OrderedFrom(c, bound) && n < |c|
    requires forall k :: 0 <= k < n ==> c[k].start > start
    requires c[n].start <= start
    ensures var r := Sweep(AsWritten, c, n, start, typ);
            r.Some? ==>
              && r.value != []
              && r.value[0].start <= Max(c[0].start, start)
              && (forall p: nat | p >= Max(c[0].start, start) :: TypeAt(r.value, p) == Max(c[0].typ, typ))
    decreases n
  {
    if n > 0 && c[0].typ < typ && c[1].typ == typ && |c| > 2 {
      var d := [c[0]] + c[2..];
      OrderedSuffix(c, bound, 2);
      assert d[1..] == c[2..];
      if n > 1 {
        SweepHead(d, n - 1, start, typ, bound);
      } else {
        assert Sweep(AsWritten, c, n, start, typ) == Some([Region(start, typ)] + d);
      }
    }
  }

  lemma SpiltLookup(c: seq<Region>, w: seq<Region>, end: nat, typ: nat, p: nat)
    requires |c| >= 2
    ensures TypeAt(Spilt(c, end, typ) + w, p) ==
            if end <= p then c[0].typ else if c[0].start <= p then typ else TypeAt(w, p)
  {
    var q := Spilt(c, end, typ) + w;
    SecondLookups(q, p);
    assert q[2..] == [Region(end, c[1].typ)] + w;
    assert q[2..][1..] == w;
  }

  lemma SpiltOrder(c: seq<Region>, w: seq<Region>, end: nat, typ: nat, bound: nat)
    requires |c| >= 2 && 0 < c[0].start <= end < bound && w != []
    ensures OrderedFrom(Spilt(c, end, typ) + w, bound) <==> c[0].start == end && OrderedFrom(w, end)
  {
    var q := Spilt(c, end, typ) + w;
    var q1 := Spilt(c, end, typ)[1..] + w;
    var q2 := [Region(end, c[1].typ)] + w;
    assert q[1..] == q1 && q1[1..] == q2 && q2[1..] == w;
    assert OrderedFrom(q2, c[0].start) <==> end <= c[0].start && OrderedFrom(w, end);
    assert OrderedFrom(q1, end) <==> OrderedFrom(q2, c[0].start);
  }

  /** Behind the entry of lines 106-113, cutting c[1] at `end` too leaves its addresses to `w`. */
  lemma SpiltExact(c: seq<Region>, w: seq<Region>, start: nat, end: nat, typ: nat, bound: nat)
    requires OrderedFrom(c, bound) && |c| > 2 && start < c[0].start <= end < bound
    requires c[0].typ < typ && w != []
    ensures RaisedBelow(Some(Spilt(c, end, typ) + w), c, start, end, typ, bound)
       <==> c[0].start == end && RaisedBelow(Some(w), c[1..], start, end, typ, end)
  {
    var q := Spilt(c, end, typ) + w;
    SpiltOrder(c, w, end, typ, bound);
    forall p: nat
      ensures TypeAt(q, p) == if end <= p then c[0].typ else if c[0].start <= p then typ else TypeAt(w, p)
    {
      SpiltLookup(c, w, end, typ, p);
    }
    if c[0].start == end && OrderedFrom(w, end) {
      forall p: nat
        ensures p < end ==> TypeAt(c, p) == TypeAt(c[1..], p) && TypeAt(q, p) == TypeAt(w, p)
        ensures p >= end ==> TypeAt(q, p) == Raised(TypeAt(c, p), p, start, end, typ)
      {
      }
      if RaisedBelow(Some(w), c[1..], start, end, typ, end) {
        forall p: nat | p < bound
          ensures TypeAt(q, p) == Raised(TypeAt(c, p), p, start, end, typ)
        {
          if p < end {
            assert TypeAt(w, p) == Raised(TypeAt(c[1..], p), p, start, end, typ);
          }
        }
        assert RaisedBelow(Some(q), c, start, end, typ, bound);
      }
      if RaisedBelow(Some(q), c, start, end, typ, bound) {
        forall p: nat | p < end
          ensures TypeAt(w, p) == Raised(TypeAt(c[1..], p), p, start, end, typ)
        {
          assert TypeAt(q, p) == TypeAt(w, p);
        }
        assert RaisedBelow(Some(w), c[1..], start, end, typ, end);
      }
    }
  }

  lemma EarlyReturnExact(c: seq<Region>, start: nat, end: nat, typ: nat, bound: nat)
    requires OrderedFrom(c, bound) && |c| > 2 && c[1].start <= start < c[0].start == end
    requires c[2].typ >= typ
    ensures RaisedBelow(Some(c[2..]), c[1..], start, end, typ, end)
       <==> c[2].typ == Max(typ, c[1].typ) && (c[1].start == start || c[2].typ == c[1].typ)
  {
    var w := c[2..];
    OrderedSuffix(c, bound, 2);
    assert c[1..][1..] == w;
    forall p: nat | p < end
      ensures TypeAt(w, p) == if p >= c[1].start then c[2].typ else TypeAt(c[1..], p)
      ensures p >= c[1].start ==> TypeAt(c[1..], p) == c[1].typ
    {
    }
    if RaisedBelow(Some(w), c[1..], start, end, typ, end) {
      assert TypeAt(w, start) == Raised(c[1].typ, start, start, end, typ);
      assert TypeAt(w, c[1].start) == Raised(c[1].typ, c[1].start, start, end, typ);
    }
  }

  lemma FallThroughExact(c: seq<Region>, n: nat, start: nat, end: nat, typ: nat, bound: nat)
    requires Window(c, n, start, end, bound) && n > 0
    requires c[0].typ < typ && c[1].typ != typ
    ensures RaisedBelow(InsertBelow(AsWritten, c, n, start, end, typ), c, start, end, typ, bound)
       <==> InsertBelowSafe(c, n, start, end, typ)
  {
    OrderedSuffix(c, bound, 1);
    if |c| > 2 {
      OrderedSuffix(c, bound, 2);
      assert c[1..][1..] == c[2..];
      if n >= 2 {
        SpiltSweepExact(c, n, start, end, typ, bound);
      } else if c[2].typ >= typ {
        SpiltExact(c, c[2..], start, end, typ, bound);
        if c[0].start == end {
          EarlyReturnExact(c, start, end, typ, bound);
        }
      } else {
        var tail := [Region(start, typ), Region(end, c[1].typ)] + c[2..];
        assert tail[1..] == [Region(end, c[1].typ)] + c[2..];
        var q := [Region(end, c[0].typ), Region(c[0].start, typ)] + tail;
        assert q[1..] == [Region(c[0].start, typ)] + tail && q[1..][1..] == tail;
        assert !OrderedFrom(tail, c[0].start);
        assert !OrderedFrom(q[1..], end);
      }
    }
  }

  lemma SpiltSweepExact(c: seq<Region>, n: nat, start: nat, end: nat, typ: nat, bound: nat)
    requires Window(c, n, start, end, bound) && n >= 2
    requires c[0].typ < typ && c[1].typ != typ
    ensures RaisedBelow(InsertBelow(AsWritten, c, n, start, end, typ), c, start, end, typ, bound)
       <==> InsertBelowSafe(c, n, start, end, typ)
  {
    OrderedSuffix(c, bound, 1);
    OrderedSuffix(c, bound, 2);
    assert c[1..][1..] == c[2..];
    assert forall k :: 0 <= k < n - 2 ==> c[2..][k] == c[k + 2];
    assert c[2..][0] == c[2];
    SweepAsWrittenExact(c[2..], n - 2, start, typ, c[1].start);
    SweepHead(c[2..], n - 2, start, typ, c[1].start);
    var w := Sweep(AsWritten, c[2..], n - 2, start, typ);
    if w.Some? {
      SpiltExact(c, w.value, start, end, typ, bound);
      if c[0].start == end {
        SeamExact(c, w.value, start, end, typ, bound);
      }
    }
  }

  lemma SeamExact(c: seq<Region>, w: seq<Region>, start: nat, end: nat, typ: nat, bound: nat)
    requires OrderedFrom(c, bound) && |c| > 2 && start < c[1].start <= c[0].start == end
    requires w != [] && w[0].start <= c[1].start
    requires forall p: nat | p >= c[1].start :: TypeAt(w, p) == Max(c[2].typ, typ)
    ensures RaisedBelow(Some(w), c[1..], start, end, typ, end)
       <==> (c[1].start == end || Max(typ, c[2].typ) == Max(typ, c[1].typ))
            && Swept(Some(w), c[2..], start, typ, c[1].start)
  {
    var seam := c[1].start;
    assert c[1..][1..] == c[2..];
    forall p: nat | p < end
      ensures p < seam ==> TypeAt(c[1..], p) == TypeAt(c[2..], p)
      ensures p >= seam ==> TypeAt(c[1..], p) == c[1].typ
    {
    }
    if RaisedBelow(Some(w), c[1..], start, end, typ, end) {
      if seam < end {
        assert TypeAt(w, seam) == Raised(TypeAt(c[1..], seam), seam, start, end, typ);
      }
      assert Swept(Some(w), c[2..], start, typ, seam);
    }
  }

  /** The code as it stands meets its purpose exactly when its two slips do no harm. */
  lemma AsWrittenIsPointwiseMaxExactly(c: seq<Region>, start: nat, end: nat, typ: nat)
    requires Terminated(c) && Ordered(c) && start <= end
    ensures IsRaised(Insert(AsWritten, c, start, end, typ), c, start, end, typ) <==> InsertSafe(c, start, end, typ)
  {
    if start < end {
      WindowOf(c, start, end);
      var e := First(c, end);
      var n := StartIdx(c, start, end) - e;
      var low := InsertBelow(AsWritten, c[e..], n, start, end, typ);
      InsertBelowAsWrittenExact(c[e..], n, start, end, typ, BoundOf(c, e, end));
      LowStart(AsWritten, c[e..], n, start, end, typ);
      WholeMap(c, low, start, end, typ);
    }
  }

  /** Lines 106-116: a reserved range ends inside a free region and starts inside a reclaimable
      one; the reclaimable part outside the range loses its type. */
  lemma FallThroughLosesARegion()
    ensures var c := [Region(0x3000, 1), Region(0x1000, 4), Region(0, 0)];
            && Ordered(c)
            && Insert(AsWritten, c, 0x2000, 0x4000, 6).Some?
            && TypeAt(c, 0x1000) == 4
            && TypeAt(Insert(AsWritten, c, 0x2000, 0x4000, 6).value, 0x1000) == 0
  {
    hide Insert, InsertBelow, First;
    var c := [Region(0x3000, 1), Region(0x1000, 4), Region(0, 0)];
    var low := [Region(0x4000, 1), Region(0x3000, 6), Region(0x2000, 6), Region(0x4000, 4), Region(0, 0)];
    FallThroughInserts(c, low);
    assert c[1..] == [c[1], c[2]] && c[1..][1..] == [c[2]];
    assert low[1..] == [low[1], low[2], low[3], low[4]] && low[1..][1..] == [low[2], low[3], low[4]];
    assert low[1..][1..][1..] == [low[3], low[4]] && low[1..][1..][1..][1..] == [low[4]];
  }

  lemma FallThroughInserts(c: seq<Region>, low: seq<Region>)
    requires c == [Region(0x3000, 1), Region(0x1000, 4), Region(0, 0)]
    requires low == [Region(0x4000, 1), Region(0x3000, 6), Region(0x2000, 6), Region(0x4000, 4), Region(0, 0)]
    ensures Terminated(c) && Insert(AsWritten, c, 0x2000, 0x4000, 6) == Some(low)
  {
    hide Sweep, First;
    assert c[0..] == c;
    FirstUnique(c, 0x4000, 0);
    FirstUnique(c, 0x2000, 1);
    assert c[2..] == [c[2]] && c[..0] == [];
    assert low == [low[0], low[1]] + ([low[2], low[3]] + c[2..]) == c[..0] + low;
  }

  /** Line 51: the entry deleted is the one that was to be kept, and its addresses go to the
      stronger entry below. */
  lemma MoveLeftLosesARegion()
    ensures var c := [Region(0x5000, 6), Region(0x4000, 0), Region(0x3000, 1), Region(0x2000, 4), Region(0, 0)];
            && Ordered(c)
            && Insert(AsWritten, c, 0x2000, 0x6000, 1).Some?
            && TypeAt(c, 0x3000) == 1
            && TypeAt(Insert(AsWritten, c, 0x2000, 0x6000, 1).value, 0x3000) == 4
  {
    hide Insert, InsertBelow, First, Sweep;
    var c := [Region(0x5000, 6), Region(0x4000, 0), Region(0x3000, 1), Region(0x2000, 4), Region(0, 0)];
    var r := [Region(0x5000, 6), Region(0x4000, 1), Region(0x2000, 4), Region(0, 0)];
    MoveLeftInserts(c, r);
    assert c[1..] == [c[1], c[2], c[3], c[4]] && c[1..][1..] == [c[2], c[3], c[4]];
    assert c[1..][1..][1..] == [c[3], c[4]] && c[1..][1..][1..][1..] == [c[4]];
    assert r[1..] == [r[1], r[2], r[3]] && r[1..][1..] == [r[2], r[3]];
  }

  lemma MoveLeftInserts(c: seq<Region>, r: seq<Region>)
    requires c == [Region(0x5000, 6), Region(0x4000, 0), Region(0x3000, 1), Region(0x2000, 4), Region(0, 0)]
    requires r == [Region(0x5000, 6), Region(0x4000, 1), Region(0x2000, 4), Region(0, 0)]
    ensures Terminated(c) && Insert(AsWritten, c, 0x2000, 0x6000, 1) == Some(r)
  {
    hide Sweep, First;
    assert c[0..] == c && c[..0] == [];
    FirstUnique(c, 0x6000, 0);
    FirstUnique(c, 0x2000, 3);
    MoveLeftSweeps(c, r);
    assert [c[0]] + r[1..] == r == [] + r;
  }

  lemma MoveLeftSweeps(c: seq<Region>, r: seq<Region>)
    requires c == [Region(0x5000, 6), Region(0x4000, 0), Region(0x3000, 1), Region(0x2000, 4), Region(0, 0)]
    requires r == [Region(0x5000, 6), Region(0x4000, 1), Region(0x2000, 4), Region(0, 0)]
    ensures Sweep(AsWritten, c[1..], 2, 0x2000, 1) == Some(r[1..])
  {
    var d := [c[1]] + c[3..];
    assert d[1..] == [c[3], c[4]] && c[1..][0] == c[1] && c[1..][1] == c[2] && c[1..][2..] == c[3..];
    assert Sweep(AsWritten, d[1..], 0, 0x2000, 1) == Some(d[1..]);
    assert Sweep(AsWritten, d, 1, 0x2000, 1) == Some([Region(0x4000, 1)] + d[1..]);
    assert [Region(0x4000, 1)] + d[1..] == r[1..];
  }

  /** Rounding a tiny region inwards can give start > end.  The code then leaves every lookup
      alone, but the entries stay ordered only when nothing was inserted. */
  lemma InvertedRange(rev: Revision, c: seq<Region>, start: nat, end: nat, typ: nat)
    requires Terminated(c) && Ordered(c) && start > end
    ensures Insert(rev, c, start, end, typ).Some?
    ensures forall p: nat :: TypeAt(Insert(rev, c, start, end, typ).value, p) == TypeAt(c, p)
    ensures Ordered(Insert(rev, c, start, end, typ).value) <==> typ <= TypeAt(c, end) || end == 0
  {
    InvertedShape(rev, c, start, end, typ);
    if typ > TypeAt(c, end) && end > 0 {
      forall p: nat
        ensures TypeAt(InvertedMap(c, start, end, typ), p) == TypeAt(c, p)
      {
        InvertedLookup(c, start, end, typ, p);
      }
      InvertedOrder(c, start, end, typ);
    }
  }

  function InvertedMap(c: seq<Region>, start: nat, end: nat, typ: nat): seq<Region>
    requires First(c, end) < |c|
  {
    var e := First(c, end);
    c[..e] + ([Region(end, c[e].typ), Region(start, typ)] + c[e..])
  }

  lemma {:induction false} TypeAtFirst(c: seq<Region>, p: nat)
    requires First(c, p) < |c|
    ensures TypeAt(c, p) == c[First(c, p)].typ
  {
    if c[0].start > p {
      TypeAtFirst(c[1..], p);
    }
  }

  lemma InvertedShape(rev: Revision, c: seq<Region>, start: nat, end: nat, typ: nat)
    requires Terminated(c) && Ordered(c) && start > end
    ensures First(c, end) < |c|
    ensures Insert(rev, c, start, end, typ)
            == Some(if typ <= TypeAt(c, end) || end == 0 then c else InvertedMap(c, start, end, typ))
  {
    hide Sweep, InsertBelow, TypeAt, OrderedFrom, Terminated, First, InvertedMap;
    LastStart(c);
    FirstInRange(c, start, end);
    TypeAtFirst(c, end);
    var e := First(c, end);
    var rest := c[e..];
    FirstUnique(rest, start, 0);
    InvertedBelow(rev, rest, start, end, typ);
    assert c[..e] + rest == c;
    InvertedMapIs(c, start, end, typ);
  }

  lemma InvertedMapIs(c: seq<Region>, start: nat, end: nat, typ: nat)
    requires First(c, end) < |c|
    ensures var e := First(c, end);
            InvertedMap(c, start, end, typ) == c[..e] + ([Region(end, c[e].typ), Region(start, typ)] + c[e..])
  {
  }

  lemma LastStart(c: seq<Region>)
    requires Terminated(c)
    ensures forall i :: 0 <= i < |c| ==> (c[i].start == 0 <==> i == |c| - 1)
  {
  }

  lemma InvertedBelow(rev: Revision, c: seq<Region>, start: nat, end: nat, typ: nat)
    requires c != [] && start > end && c[0].start <= end && (c[0].start == 0 ==> |c| == 1)
    ensures InsertBelow(rev, c, 0, start, end, typ)
            == Some(if typ <= c[0].typ || end == 0 then c else [Region(end, c[0].typ), Region(start, typ)] + c)
  {
    hide Sweep;
    if end == 0 {
      assert c == [Region(0, c[0].typ)];
    }
  }

  lemma InvertedLookup(c: seq<Region>, start: nat, end: nat, typ: nat, p: nat)
    requires Ordered(c) && start > end && First(c, end) < |c|
    ensures TypeAt(InvertedMap(c, start, end, typ), p) == TypeAt(c, p)
  {
    var e := First(c, end);
    var rest := c[e..];
    var low := [Region(end, c[e].typ), Region(start, typ)] + rest;
    assert low[1..] == [Region(start, typ)] + rest && low[1..][1..] == rest;
    assert c[..e] + rest == c;
    LookupSplit(c, e, rest, BoundOf(c, e, end), p);
    LookupSplit(c, e, low, BoundOf(c, e, end), p);
    assert TypeAt(low, p) == if end <= p then c[e].typ else TypeAt(rest, p);
  }

  lemma InvertedOrder(c: seq<Region>, start: nat, end: nat, typ: nat)
    requires Ordered(c) && start > end && First(c, end) < |c|
    ensures !Ordered(InvertedMap(c, start, end, typ))
  {
    var e := First(c, end);
    var r := InvertedMap(c, start, end, typ);
    assert r[e + 1..][0] == Region(start, typ) && r[e] == Region(end, c[e].typ);
    if Ordered(r) {
      OrderedSuffix(r, r[0].start, e + 1);
    }
  }

  // ----- splitting -----

  function Split(c: seq<Region>, addr: nat): seq<Region>
    requires First(c, addr) < |c|
  {
    var i := First(c, addr);
    if c[i].start == addr then c else c[..i] + ([Region(addr, c[i].typ)] + c[i..])
  }

  /** The entry that holds `addr` starts there. */
  predicate StartsAt(c: seq<Region>, addr: nat) {
    First(c, addr) < |c| && c[First(c, addr)].start == addr
  }

  /** Splitting changes no lookup and keeps the order; afterwards an entry starts at `addr`. */
  lemma SplitKeepsTypes(c: seq<Region>, addr: nat)
    requires Ordered(c)
    ensures First(c, addr) < |c|
    ensures Ordered(Split(c, addr))
    ensures exists k :: 0 <= k < |Split(c, addr)| && Split(c, addr)[k].start == addr
    ensures forall p: nat :: TypeAt(Split(c, addr), p) == TypeAt(c, p)
  {
    OrderedIsTerminated(c, c[0].start);
    var i := First(c, addr);
    var rest := c[i..];
    OrderedSuffix(c, c[0].start, i);
    assert c[..i] + rest == c;
    if c[i].start != addr {
      var low := [Region(addr, c[i].typ)] + rest;
      assert low[1..] == rest;
      var r := c[..i] + low;
      assert r[i].start == addr;
      forall p: nat
        ensures TypeAt(r, p) == TypeAt(c, p)
      {
        LookupSplit(c, i, rest, BoundOf(c, i, addr), p);
        LookupSplit(c, i, low, BoundOf(c, i, addr), p);
      }
      if i > 0 {
        HeadStarts(c, c[0].start, i);
        OrderedAppend(c[..i], low, rest, c[0].start, c[i - 1].start);
      } else {
        assert r == low;
      }
    }
  }

  // ----- the array and the functions that change it -----

  /** How mmap_insert_region can end: normally, in the PANIC of _move_right, in a failed
      ASSERT on its arguments, or (as written) by reading entries behind the terminator. */
  datatype Outcome = Done | NoSpace | BadArgument | PastEnd

  lemma {:induction false} SweepLength(c: seq<Region>, n: nat, start: nat, typ: nat)
    requires n < |c|
    ensures Sweep(Documented, c, n, start, typ).Some? && |Sweep(Documented, c, n, start, typ).value| <= |c| + 1
    decreases n
  {
    if n > 0 {
      SweepLength(c[1..], n - 1, start, typ);
    }
  }

  lemma InsertBelowLength(c: seq<Region>, n: nat, start: nat, end: nat, typ: nat, bound: nat)
    requires Window(c, n, start, end, bound)
    ensures var r := InsertBelow(Documented, c, n, start, end, typ); r.Some? ==> |r.value| <= |c| + 2
  {
    if n > 0 {
      SweepLength(c[1..], n - 1, start, typ);
    }
  }

  lemma InsertLength(c: seq<Region>, start: nat, end: nat, typ: nat)
    requires Terminated(c) && Ordered(c) && start <= end
    ensures var r := Insert(Documented, c, start, end, typ); r.Some? ==> |r.value| <= |c| + 2
  {
    if start < end {
      WindowOf(c, start, end);
      var e := First(c, end);
      InsertBelowLength(c[e..], StartIdx(c, start, end) - e, start, end, typ, BoundOf(c, e, end));
    }
  }

  // ----- where entries can start -----

  /** All entries start on pages, none above `limit`. */
  predicate OnPages(c: seq<Region>, limit: nat) {
    forall i :: 0 <= i < |c| ==> c[i].start % PAGE_SIZE == 0 && c[i].start <= limit
  }

  lemma {:induction false} SweepOnPages(c: seq<Region>, n: nat, start: nat, typ: nat, limit: nat)
    requires n < |c| && OnPages(c, limit) && start % PAGE_SIZE == 0 && start <= limit
    ensures var r := Sweep(Documented, c, n, start, typ); r.Some? ==> OnPages(r.value, limit)
    decreases n
  {
    if n > 0 {
      SweepOnPages(c[1..], n - 1, start, typ, limit);
    }
  }

  /** An insertion adds no start but those of the range. */
  lemma InsertOnPages(c: seq<Region>, start: nat, end: nat, typ: nat, limit: nat)
    requires Terminated(c) && OnPages(c, limit)
    requires start % PAGE_SIZE == 0 && end % PAGE_SIZE == 0 && start <= limit && end <= limit
    ensures var r := Insert(Documented, c, start, end, typ); r.Some? ==> OnPages(r.value, limit)
  {
    if start != end {
      FirstInRange(c, start, end);
      var e := First(c, end);
      BelowOnPages(c[e..], StartIdx(c, start, end) - e, start, end, typ, limit);
    }
  }

  lemma BelowOnPages(c: seq<Region>, n: nat, start: nat, end: nat, typ: nat, limit: nat)
    requires n < |c| && OnPages(c, limit)
    requires start % PAGE_SIZE == 0 && end % PAGE_SIZE == 0 && start <= limit && end <= limit
    ensures var r := InsertBelow(Documented, c, n, start, end, typ); r.Some? ==> OnPages(r.value, limit)
  {
    if n > 0 {
      SweepOnPages(c[1..], n - 1, start, typ, limit);
      hide Sweep;
    }
  }

  /** What is still to be computed when the loop of mmap_insert_region stands at endidx with
      the upper end aligned.  As written the loop can overrun startidx by one. */
  function SweepLeft(rev: Revision, c: seq<Region>, endidx: nat, startidx: nat, start: nat, end: nat,
                     typ: nat): Option<seq<Region>>
    requires startidx < |c| && endidx < |c|
  {
    if endidx <= startidx then
      Prepend(c[..endidx], Sweep(rev, c[endidx..], startidx - endidx, start, typ))
    else if c[endidx].typ >= typ then Some(c)
    else Some(c[..startidx] + [Region(start, typ)] + c[startidx..])
  }

  lemma PrependTwice(a: seq<Region>, b: seq<Region>, x: Option<seq<Region>>)
    ensures Prepend(a, Prepend(b, x)) == Prepend(a + b, x)
  {
    if x.Some? {
      assert a + (b + x.value) == a + b + x.value;
    }
  }

  lemma KeepStep(rev: Revision, c: seq<Region>, e: nat, s: nat, start: nat, end: nat, typ: nat)
    requires e < s < |c| && c[e].typ >= typ
    ensures SweepLeft(rev, c, e, s, start, end, typ) == SweepLeft(rev, c, e + 1, s, start, end, typ)
  {
    assert c[e..][1..] == c[e + 1..];
    assert c[..e] + [c[e]] == c[..e + 1];
    PrependTwice(c[..e], [c[e]], Sweep(rev, c[e + 1..], s - e - 1, start, typ));
  }

  lemma RaiseStep(rev: Revision, c: seq<Region>, e: nat, s: nat, start: nat, end: nat, typ: nat)
    requires e < s < |c| && c[e].typ < typ && c[e + 1].typ != typ
    ensures SweepLeft(rev, c, e, s, start, end, typ)
         == SweepLeft(rev, c[e := c[e].(typ := typ)], e + 1, s, start, end, typ)
  {
    var d := c[e := c[e].(typ := typ)];
    assert c[e..][1..] == c[e + 1..] == d[e + 1..];
    assert c[..e] + [d[e]] == d[..e + 1];
    PrependTwice(c[..e], [d[e]], Sweep(rev, c[e + 1..], s - e - 1, start, typ));
  }

  lemma MergeStep(c: seq<Region>, e: nat, s: nat, start: nat, end: nat, typ: nat)
    requires e < s < |c| && c[e].typ < typ && c[e + 1].typ == typ
    ensures SweepLeft(Documented, c, e, s, start, end, typ)
         == SweepLeft(Documented, c[..e] + c[e + 1..], e, s - 1, start, end, typ)
  {
    var d := c[..e] + c[e + 1..];
    assert c[e..][1..] == c[e + 1..] == d[e..];
    assert d[..e] == c[..e];
  }

  lemma MergeStepAsWritten(c: seq<Region>, e: nat, s: nat, start: nat, end: nat, typ: nat)
    requires e < s < |c| && c[e].typ < typ && c[e + 1].typ == typ
    requires Terminated(c)
    ensures c[e + 1].start == 0 ==> SweepLeft(AsWritten, c, e, s, start, end, typ) == None
    ensures c[e + 1].start != 0 ==>
              && s <= |c[..e + 1] + c[e + 2..]|
              && SweepLeft(AsWritten, c, e, s, start, end, typ)
              == SweepLeft(AsWritten, c[..e + 1] + c[e + 2..], e, s - 1, start, end, typ)
  {
    if c[e + 1].start != 0 {
      var d := c[..e + 1] + c[e + 2..];
      assert c[e..][0] == c[e] && c[e..][1] == c[e + 1] && c[e..][2..] == c[e + 2..];
      assert d[e..] == [c[e]] + c[e..][2..];
      assert d[..e] == c[..e];
    }
  }

  /** Before the first turn of the loop, with the indices that _find_idx found. */
  function Unswept(rev: Revision, c: seq<Region>, e: nat, s: nat, start: nat, end: nat, typ: nat): Option<seq<Region>>
    requires e <= s < |c|
  {
    Prepend(c[..e], InsertBelow(rev, c[e..], s - e, start, end, typ))
  }

  lemma NothingInserted(rev: Revision, c: seq<Region>, at: nat, typ: nat)
    requires Terminated(c)
    ensures Insert(rev, c, at, at, typ) == Some(c)
  {
  }

  lemma InsertIsUnswept(rev: Revision, c: seq<Region>, start: nat, end: nat, typ: nat)
    requires Terminated(c) && start != end
    ensures First(c, end) <= StartIdx(c, start, end) < |c| && c[StartIdx(c, start, end)].start <= start
    ensures Insert(rev, c, start, end, typ) == Unswept(rev, c, First(c, end), StartIdx(c, start, end), start, end, typ)
  {
    hide InsertBelow;
    FirstInRange(c, start, end);
  }

  // ----- when the array is too small -----

  /** The first turn splits entry e: lines 106-116 are taken. */
  predicate SplitsTop(rev: Revision, c: seq<Region>, e: nat, typ: nat)
    requires e + 1 < |c|
  {
    c[e].typ < typ && c[e + 1].typ != typ && (rev == AsWritten ==> c[e + 1].start != 0)
  }

  predicate TooLong(r: Option<seq<Region>>) {
    r.Some? && |r.value| > MMAP_MAX_NUM_ENTRIES
  }

  /** The entries do not fit: when the first turn splits one, or at the end. */
  predicate RunsFull(rev: Revision, c: seq<Region>, e: nat, s: nat, start: nat, end: nat, typ: nat)
    requires e <= s < |c|
  {
    if e < s then
      (SplitsTop(rev, c, e, typ) && |c| >= MMAP_MAX_NUM_ENTRIES) || TooLong(Unswept(rev, c, e, s, start, end, typ))
    else
      c[e].typ < typ && |c| + (if c[e].start == start then 1 else 2) > MMAP_MAX_NUM_ENTRIES
  }

  /** The same for a range, found in the map. */
  predicate OutOfSpace(rev: Revision, c: seq<Region>, start: nat, end: nat, typ: nat)
    requires Terminated(c)
  {
    start != end
    && (FirstInRange(c, start, end); RunsFull(rev, c, First(c, end), StartIdx(c, start, end), start, end, typ))
  }

  /** The first turn of the loop, by the branch it takes. */
  lemma TopKeepStep(rev: Revision, c: seq<Region>, e: nat, s: nat, start: nat, end: nat, typ: nat)
    requires e < s < |c| && c[e].typ >= typ
    ensures Unswept(rev, c, e, s, start, end, typ) == SweepLeft(rev, c, e + 1, s, start, end, typ)
  {
    var low := c[e..];
    assert low[0] == c[e] && low[1..] == c[e + 1..];
    assert c[..e] + [c[e]] == c[..e + 1];
    PrependTwice(c[..e], [c[e]], Sweep(rev, low[1..], s - e - 1, start, typ));
  }

  lemma TopCutStep(rev: Revision, c: seq<Region>, e: nat, s: nat, start: nat, end: nat, typ: nat)
    requires e < s < |c| && c[e].typ < typ && c[e + 1].typ == typ
    ensures Unswept(rev, c, e, s, start, end, typ)
         == SweepLeft(rev, c[e := c[e].(start := end)], e + 1, s, start, end, typ)
  {
    var d := c[e := c[e].(start := end)];
    var low := c[e..];
    assert low[0] == c[e] && low[1] == c[e + 1] && low[1..] == c[e + 1..] == d[e + 1..];
    assert c[..e] + [d[e]] == d[..e + 1];
    PrependTwice(c[..e], [d[e]], Sweep(rev, low[1..], s - e - 1, start, typ));
  }

  /** Lines 106-113: the map with the new entry and the old top cut at `end`. */
  function TopSplit(c: seq<Region>, e: nat, end: nat, typ: nat): (d: seq<Region>)
    requires e < |c|
    ensures |d| == |c| + 1
  {
    c[..e] + [Region(end, c[e].typ), Region(c[e].start, typ)] + c[e + 1..]
  }

  lemma TopSplitStep(c: seq<Region>, e: nat, s: nat, start: nat, end: nat, typ: nat)
    requires e < s < |c| && c[e].typ < typ && c[e + 1].typ != typ
    ensures Unswept(Documented, c, e, s, start, end, typ)
         == SweepLeft(Documented, TopSplit(c, e, end, typ), e + 2, s + 1, start, end, typ)
  {
    var d := TopSplit(c, e, end, typ);
    var low := c[e..];
    assert low[0] == c[e] && low[1] == c[e + 1] && low[1..] == c[e + 1..] == d[e + 2..];
    PrependTwice(c[..e], [d[e], d[e + 1]], Sweep(Documented, low[1..], s - e - 1, start, typ));
    assert c[..e] + [d[e], d[e + 1]] == d[..e + 2];
  }

  /** Lines 106-116: the same with the next entry cut at `end` too. */
  function TopSpilt(c: seq<Region>, e: nat, end: nat, typ: nat): (f: seq<Region>)
    requires e + 1 < |c|
    ensures |f| == |c| + 1
  {
    c[..e] + Spilt(c[e..], end, typ) + c[e + 2..]
  }

  lemma TopSpiltStep(c: seq<Region>, e: nat, s: nat, start: nat, end: nat, typ: nat)
    requires Terminated(c)
    requires e < s < |c| && c[e].typ < typ && c[e + 1].typ != typ
    ensures c[e + 1].start == 0 ==> Unswept(AsWritten, c, e, s, start, end, typ) == None
    ensures c[e + 1].start != 0 ==>
              && e + 2 < |c|
              && Unswept(AsWritten, c, e, s, start, end, typ)
              == SweepLeft(AsWritten, TopSpilt(c, e, end, typ), e + 3, s + 1, start, end, typ)
  {
    var low := c[e..];
    assert low[0] == c[e] && low[1] == c[e + 1];
    if c[e + 1].start != 0 {
      var f := TopSpilt(c, e, end, typ);
      assert low[2] == c[e + 2] == f[e + 3];
      assert low[2..] == c[e + 2..] == f[e + 3..];
      assert c[..e] + Spilt(low, end, typ) == f[..e + 3];
      if s == e + 1 {
        TopSpiltOverrun(c, e, start, end, typ);
      } else {
        PrependTwice(c[..e], Spilt(low, end, typ), Sweep(AsWritten, low[2..], s - e - 2, start, typ));
      }
    }
  }

  lemma TopSpiltOverrun(c: seq<Region>, e: nat, start: nat, end: nat, typ: nat)
    requires e + 2 < |c| && c[e].typ < typ && c[e + 1].typ != typ
    ensures Unswept(AsWritten, c, e, e + 1, start, end, typ)
         == SweepLeft(AsWritten, TopSpilt(c, e, end, typ), e + 3, e + 2, start, end, typ)
  {
    var low, f := c[e..], TopSpilt(c, e, end, typ);
    assert low[0] == c[e] && low[1] == c[e + 1] && low[2] == c[e + 2] == f[e + 3];
    assert c[..e] + (Spilt(low, end, typ) + low[2..]) == f;
    assert f[..e + 2] + [Region(start, typ)] + f[e + 2..]
        == c[..e] + ([f[e], f[e + 1]] + ([Region(start, typ), f[e + 2]] + low[2..]));
  }

  lemma LastStep(rev: Revision, c: seq<Region>, s: nat, start: nat, end: nat, typ: nat)
    requires s < |c|
    ensures SweepLeft(rev, c, s, s, start, end, typ)
         == Some(if c[s].typ >= typ then c
                 else if c[s].start == start then c[s := c[s].(typ := typ)]
                 else c[..s] + [Region(start, typ)] + c[s..])
  {
    assert c[..s] + c[s..] == c;
    assert c[s..][1..] == c[s + 1..];
    if c[s].start == start {
      assert c[..s] + ([Region(start, typ)] + c[s + 1..]) == c[s := c[s].(typ := typ)];
    }
    assert c[..s] + ([Region(start, typ)] + c[s..]) == c[..s] + [Region(start, typ)] + c[s..];
  }

  /** Both ends in one entry: nothing to sweep. */
  function OneEntry(c: seq<Region>, s: nat, start: nat, end: nat, typ: nat): seq<Region>
    requires s < |c|
  {
    var cut := Region(end, c[s].typ);
    if c[s].typ >= typ then c
    else if c[s].start == start then c[..s] + [cut, Region(start, typ)] + c[s + 1..]
    else c[..s] + if end == 0 then [cut] else [cut, Region(start, typ)] + c[s..]
  }

  lemma OneEntryStep(rev: Revision, c: seq<Region>, s: nat, start: nat, end: nat, typ: nat)
    requires Terminated(c) && start != end && s < |c| && c[s].start <= end
    ensures Unswept(rev, c, s, s, start, end, typ) == Some(OneEntry(c, s, start, end, typ))
  {
    var low := c[s..];
    assert low[0] == c[s];
    assert c[..s] + low == c;
    assert low[1..] == c[s + 1..];
    var cut := Region(end, c[s].typ);
    if c[s].typ < typ && c[s].start == start {
      assert end != 0;
      assert c[..s] + ([cut, Region(start, typ)] + c[s + 1..]) == c[..s] + [cut, Region(start, typ)] + c[s + 1..];
    }
  }

  class Mmap {
    const r: array<Region>

    /** The entries in use, up to the terminator. */
    ghost var contents: seq<Region>

    ghost predicate Holds(c: seq<Region>)
      reads r
    {
      Terminated(c) && |c| <= r.Length && r[..|c|] == c
    }

    ghost predicate Valid()
      reads this, r
    {
      r.Length == MMAP_MAX_NUM_ENTRIES && Holds(contents)
    }

    lemma HoldsAt(c: seq<Region>)
      requires Holds(c)
      ensures |c| <= r.Length && forall k :: 0 <= k < |c| ==> r[k] == c[k]
    {
      assert forall k :: 0 <= k < |c| ==> r[..|c|][k] == r[k];
    }

    /** regmap->r[0] = 0 | REGION_TYPE_NONE */
    constructor ()
      ensures Valid() && fresh(r)
      ensures contents == [Region(0, 0)]
    {
      r := new Region[MMAP_MAX_NUM_ENTRIES](_ => Region(0, 0));
      contents := [Region(0, 0)];
    }

    method FindIdx(start: nat, end: nat) returns (i: nat, j: nat)
      requires Valid()
      ensures i == First(contents, end)
      ensures j == StartIdx(contents, start, end) < |contents|
      ensures i < j ==> start < end
    {
      FirstInRange(contents, start, end);
      HoldsAt(contents);
      ghost var tail, s := contents[First(contents, end)..], StartIdx(contents, start, end);
      assert s == First(contents, end) + First(tail, start);
      hide First, Holds, StartIdx, Terminated;
      i := 0;
      while r[i].start > end
        invariant i <= First(contents, end)
        decreases |contents| - i
      {
        i := i + 1;
      }
      FirstUnique(contents, end, i);
      j := i;
      while r[j].start > start
        invariant i <= j <= s
        decreases |contents| - j
      {
        assert tail[j - i] == contents[j];
        j := j + 1;
      }
      assert j < |contents| && tail[j - i] == contents[j];
      FirstUnique(tail, start, j - i);
    }

    /** map[idx..] -> map[idx + amt..], or the panic when the entries do not fit. */
    method MoveRight(ghost c: seq<Region>, idx: nat, amt: nat) returns (ok: bool)
      requires r.Length == MMAP_MAX_NUM_ENTRIES && Holds(c)
      requires idx < |c|
      modifies r
      ensures ok <==> |c| + amt <= MMAP_MAX_NUM_ENTRIES
      ensures ok ==> forall k :: 0 <= k < idx + amt ==> r[k] == old(r[k])
      ensures ok ==> forall k :: idx + amt <= k < |c| + amt ==> r[k] == c[k - amt]
      ensures !ok ==> r[..] == old(r[..])
    {
      HoldsAt(c);
      assert |c| <= r.Length && forall k :: 0 <= k < |c| ==> (c[k].start == 0 <==> k == |c| - 1);
      hide Holds, Terminated;
      var i := idx;
      while r[i].start != 0
        invariant idx <= i < |c|
        modifies {}
        decreases |c| - i
      {
        i := i + 1;
      }
      if i + amt >= MMAP_MAX_NUM_ENTRIES {
        return false;
      }
      var len := i + 1 - idx;
      i := idx + len + amt;
      while len > 0
        invariant 0 <= len <= |c| - idx
        invariant i == idx + len + amt
        invariant forall k :: 0 <= k < idx + amt ==> r[k] == old(r[k])
        invariant forall k {:trigger r[k]} :: idx <= k < idx + len ==> r[k] == c[k]
        invariant forall k :: i <= k < |c| + amt ==> r[k] == c[k - amt]
      {
        r[i - 1] := r[i - amt - 1];
        i := i - 1;
        len := len - 1;
      }
      return true;
    }

    /** c without the `amt` entries from index `at`. */
    ghost function Without(c: seq<Region>, at: nat, amt: nat): seq<Region>
      requires at + amt <= |c|
    {
      c[..at] + c[at + amt..]
    }

    lemma WithoutIs(c: seq<Region>, at: nat, amt: nat)
      requires at + amt <= |c|
      ensures Without(c, at, amt) == c[..at] + c[at + amt..]
    {
    }

    lemma WithoutFront(c: seq<Region>, at: nat, amt: nat)
      requires Terminated(c) && at + amt < |c|
      ensures |Without(c, at, amt)| == |c| - amt && Terminated(Without(c, at, amt))
      ensures forall k :: 0 <= k < at ==> Without(c, at, amt)[k] == c[k]
    {
      var d := Without(c, at, amt);
      forall k | 0 <= k < |d| - 1
        ensures d[k].start > 0
      {
        assert d[k] == if k < at then c[k] else c[k + amt];
      }
    }

    lemma WithoutAt(c: seq<Region>, at: nat, amt: nat, k: nat)
      requires Terminated(c) && at + amt < |c| && at <= k < |c| - amt
      ensures Without(c, at, amt)[k] == c[k + amt] && (c[k + amt].start == 0 <==> k + amt == |c| - 1)
    {
    }

    lemma HoldsExactly(d: seq<Region>)
      requires Terminated(d) && |d| <= r.Length && forall k :: 0 <= k < |d| ==> r[k] == d[k]
      ensures Holds(d)
    {
      assert r[..|d|] == d;
    }

    /** The documented move: map[idx..] -> map[idx - amt..]. */
    method MoveLeft(ghost c: seq<Region>, start: nat, amt: nat)
      requires Holds(c)
      requires amt <= start < |c|
      modifies r
      ensures Holds(Without(c, start - amt, amt))
    {
      HoldsAt(c);
      ghost var d := Without(c, start - amt, amt);
      WithoutFront(c, start - amt, amt);
      assert |c| <= r.Length;
      hide Holds, Terminated, Without;
      var idx, to := start, start - amt;
      var more := true;
      while more
        invariant start <= idx <= |c| && to == idx - amt && (more <==> idx < |c|)
        invariant forall k {:trigger r[k]} :: 0 <= k < to ==> r[k] == d[k]
        invariant forall k {:trigger r[k]} :: idx <= k < |c| ==> r[k] == c[k]
        decreases |c| - idx
      {
        WithoutAt(c, start - amt, amt, to);
        more := r[idx].start != 0;
        r[to] := r[idx];
        idx, to := idx + 1, to + 1;
      }
      HoldsExactly(d);
    }

    /** Line 51 as it stands copies from idx + amt to idx: map[idx + amt..] -> map[idx..]. */
    method MoveLeftAsWritten(ghost c: seq<Region>, start: nat, amt: nat)
      requires Holds(c)
      requires amt <= start && start + amt < |c|
      modifies r
      ensures Holds(Without(c, start, amt))
    {
      HoldsAt(c);
      ghost var d := Without(c, start, amt);
      WithoutFront(c, start, amt);
      assert |c| <= r.Length;
      hide Holds, Terminated, Without;
      var idx := start;
      var more := true;
      while more
        invariant start <= idx <= |c| - amt && (more <==> idx < |c| - amt)
        invariant forall k {:trigger r[k]} :: 0 <= k < idx ==> r[k] == d[k]
        invariant forall k {:trigger r[k]} :: idx <= k < |c| ==> r[k] == c[k]
        decreases |c| - idx
      {
        WithoutAt(c, start, amt, idx);
        r[idx] := r[idx + amt];
        assert r[idx + amt] == c[idx + amt];
        idx := idx + 1;
        more := r[idx + amt - 1].start != 0;
      }
      HoldsExactly(d);
    }

    /** The array holds c with one entry replaced by another that is no terminator. */
    method SetEntry(ghost c: seq<Region>, i: nat, e: Region) returns (ghost d: seq<Region>)
      requires Holds(c) && i < |c|
      requires e.start == 0 <==> i == |c| - 1
      modifies r
      ensures d == c[i := e] && Holds(d)
    {
      HoldsAt(c);
      r[i] := e;
      d := c[i := e];
      assert r[..|d|] == d;
    }

    /** _move_right by one and the assignment of the entry that this frees. */
    method InsertEntry(ghost c: seq<Region>, i: nat, e: Region) returns (ok: bool, ghost d: seq<Region>)
      requires r.Length == MMAP_MAX_NUM_ENTRIES && Holds(c) && i < |c|
      modifies r
      ensures ok <==> |c| < MMAP_MAX_NUM_ENTRIES
      ensures d == c[..i] + [e] + c[i..]
      ensures ok && e.start > 0 ==> Holds(d)
    {
      HoldsAt(c);
      d := c[..i] + [e] + c[i..];
      ok := MoveRight(c, i, 1);
      if ok {
        r[i] := e;
        assert r[..|d|] == d by {
          forall k | 0 <= k < |d|
            ensures r[k] == d[k]
          {
            if k > i {
              assert r[k] == c[k - 1];
            }
          }
        }
      }
    }

    /** Lines 137-139: cut entry i at `end` and put [start, end) below it. */
    method CutEntry(ghost c: seq<Region>, i: nat, start: nat, end: nat, typ: nat)
      returns (ok: bool, ghost d: seq<Region>)
      requires r.Length == MMAP_MAX_NUM_ENTRIES && Holds(c) && i < |c|
      requires start > 0
      modifies r
      ensures ok <==> |c| + 2 <= MMAP_MAX_NUM_ENTRIES
      ensures d == c[..i] + if end == 0 then [Region(end, c[i].typ)]
                            else [Region(end, c[i].typ), Region(start, typ)] + c[i..]
      ensures ok ==> Holds(d)
    {
      HoldsAt(c);
      d := c[..i] + if end == 0 then [Region(end, c[i].typ)]
                    else [Region(end, c[i].typ), Region(start, typ)] + c[i..];
      ok := MoveRight(c, i, 2);
      if ok {
        r[i + 1] := Region(start, typ);
        r[i] := r[i].(start := end);
        assert r[..|d|] == d by {
          forall k | 0 <= k < |d|
            ensures r[k] == d[k]
          {
            if k >= i + 2 {
              assert r[k] == c[k - 2];
            }
          }
        }
      }
    }

    /** mmap_insert_region */
    method InsertRegion(rev: Revision, start: nat, end: nat, typ: nat) returns (o: Outcome)
      requires Valid() && typ <= REGION_TYPE_MASK
      modifies this, r
      ensures o == BadArgument <==> start != end && !(PageAligned(start) && PageAligned(end))
      ensures o == BadArgument ==> contents == old(contents) && Valid()
      ensures o == Done ==> Valid() && Insert(rev, old(contents), start, end, typ) == Some(contents)
      ensures o == NoSpace <==> o != BadArgument && OutOfSpace(rev, old(contents), start, end, typ)
      ensures o == NoSpace ==> |old(contents)| + 2 > MMAP_MAX_NUM_ENTRIES
      ensures o == PastEnd ==> rev == AsWritten && Insert(rev, old(contents), start, end, typ) == None
    {
      hide Insert, Unswept, First, RunsFull;
      if start == end {
        NothingInserted(rev, contents, start, typ);
        return Done;
      }
      if !(PageAligned(start) && PageAligned(end)) {
        return BadArgument;
      }
      var endidx: nat, startidx: nat := FindIdx(start, end);
      InsertIsUnswept(rev, contents, start, end, typ);
      o := SweepRegion(rev, endidx, startidx, start, end, typ);
    }

    /** Lines 89-139, from the indices found. */
    method SweepRegion(rev: Revision, e: nat, s: nat, start: nat, end: nat, typ: nat) returns (o: Outcome)
      requires Valid()
      requires e <= s && Turning(contents, e, s, false, start, end)
      modifies this, r
      ensures o != BadArgument
      ensures o == Done ==> Valid() && Some(contents) == Unswept(rev, old(contents), e, s, start, end, typ)
      ensures o == NoSpace <==> RunsFull(rev, old(contents), e, s, start, end, typ)
      ensures o == NoSpace ==> |old(contents)| + 2 > MMAP_MAX_NUM_ENTRIES
      ensures o == PastEnd ==> rev == AsWritten && Unswept(rev, old(contents), e, s, start, end, typ) == None
    {
      hide Unswept, SweepLeft, Holds;
      ghost var c := contents;
      ghost var target := Unswept(rev, c, e, s, start, end, typ);
      var endidx: nat, startidx: nat := e, s;
      var endaligned := false;
      while endidx < startidx
        invariant contents == old(contents) && |c| <= |contents| + (if endaligned then 1 else 0)
        invariant Turning(c, endidx, startidx, endaligned, start, end)
        invariant !endaligned ==> c == contents && endidx == e && startidx == s
        invariant endaligned ==> SweepLeft(rev, c, endidx, startidx, start, end, typ) == target
        invariant endaligned ==> e < s && !(SplitsTop(rev, contents, e, typ) && |contents| >= MMAP_MAX_NUM_ENTRIES)
        decreases startidx - endidx
      {
        if endaligned {
          o, endidx, startidx, c := AlignedTurn(rev, c, endidx, startidx, start, end, typ);
        } else {
          o, endidx, startidx, c := TopTurn(rev, c, endidx, startidx, start, end, typ);
          endaligned := true;
        }
        if o != Done {
          return;
        }
      }
      o := Finish(rev, c, endidx, startidx, endaligned, start, end, typ);
    }

    /** What holds whenever the loop test is evaluated. */
    ghost predicate Turning(c: seq<Region>, endidx: nat, startidx: nat, endaligned: bool, start: nat, end: nat)
      reads r
    {
      && r.Length == MMAP_MAX_NUM_ENTRIES && Holds(c)
      && startidx < |c| && endidx < |c| && start != end
      && (c[startidx].start <= start || (endaligned && start > 0))
      && (startidx < endidx ==> endaligned && c[startidx].start > start)
      && (endidx < startidx ==> start < end)
      && (!endaligned ==> endidx <= startidx && c[endidx].start <= end)
    }

    /** Lines 91-105: one turn of the loop once the upper end is aligned. */
    method AlignedTurn(rev: Revision, ghost c: seq<Region>, e: nat, s: nat, start: nat, end: nat, typ: nat)
      returns (o: Outcome, endidx: nat, startidx: nat, ghost d: seq<Region>)
      requires Turning(c, e, s, true, start, end) && e < s
      modifies r
      ensures o == Done || o == PastEnd
      ensures o == PastEnd ==> rev == AsWritten && SweepLeft(rev, c, e, s, start, end, typ) == None
      ensures o == Done ==> Turning(d, endidx, startidx, true, start, end) && |d| <= |c|
      ensures o == Done ==> startidx - endidx < s - e
      ensures o == Done ==>
        SweepLeft(rev, d, endidx, startidx, start, end, typ)
        == SweepLeft(rev, c, e, s, start, end, typ)
    {
      HoldsAt(c);
      o, endidx, startidx, d := Done, e + 1, s, c;
      if r[e].typ >= typ {
        KeepStep(rev, c, e, s, start, end, typ);
      } else if r[e + 1].typ == typ {
        o, d := MergeTurn(rev, c, e, s, start, end, typ);
        endidx, startidx := e, s - 1;
      } else {
        RaiseStep(rev, c, e, s, start, end, typ);
        d := SetEntry(c, e, r[e].(typ := typ));
      }
    }

    /** Lines 97-100. */
    method MergeTurn(rev: Revision, ghost c: seq<Region>, e: nat, s: nat, start: nat, end: nat, typ: nat)
      returns (o: Outcome, ghost d: seq<Region>)
      requires Turning(c, e, s, true, start, end) && e < s
      requires c[e].typ < typ && c[e + 1].typ == typ
      modifies r
      ensures o == Done || o == PastEnd
      ensures o == PastEnd ==> rev == AsWritten && SweepLeft(rev, c, e, s, start, end, typ) == None
      ensures o == Done ==> Turning(d, e, s - 1, true, start, end) && |d| < |c|
      ensures o == Done ==> SweepLeft(rev, d, e, s - 1, start, end, typ) == SweepLeft(rev, c, e, s, start, end, typ)
    {
      HoldsAt(c);
      match rev
      case Documented =>
        MergeStep(c, e, s, start, end, typ);
        MoveLeft(c, e + 1, 1);
        WithoutIs(c, e, 1);
        return Done, c[..e] + c[e + 1..];
      case AsWritten =>
        MergeStepAsWritten(c, e, s, start, end, typ);
        if r[e + 1].start == 0 {
          return PastEnd, c;
        }
        MoveLeftAsWritten(c, e + 1, 1);
        WithoutIs(c, e + 1, 1);
        return Done, c[..e + 1] + c[e + 2..];
    }

    /** The first turn: lines 91-95 or 106-116. */
    method TopTurn(rev: Revision, ghost c: seq<Region>, e: nat, s: nat, start: nat, end: nat, typ: nat)
      returns (o: Outcome, endidx: nat, startidx: nat, ghost d: seq<Region>)
      requires Turning(c, e, s, false, start, end) && e < s
      modifies r
      ensures o == Done || o == PastEnd || o == NoSpace
      ensures o == NoSpace <==> SplitsTop(rev, c, e, typ) && |c| >= MMAP_MAX_NUM_ENTRIES
      ensures o == PastEnd ==> rev == AsWritten && Unswept(rev, c, e, s, start, end, typ) == None
      ensures o == Done ==> Turning(d, endidx, startidx, true, start, end) && |d| <= |c| + 1
      ensures o == Done ==> startidx - endidx < s - e
      ensures o == Done ==>
        SweepLeft(rev, d, endidx, startidx, start, end, typ)
        == Unswept(rev, c, e, s, start, end, typ)
    {
      hide SweepLeft, Unswept, First, Terminated;
      HoldsAt(c);
      if r[e].typ >= typ {
        TopKeepStep(rev, c, e, s, start, end, typ);
        return Done, e + 1, s, c;
      }
      if r[e + 1].typ == typ {
        TopCutStep(rev, c, e, s, start, end, typ);
        d := SetEntry(c, e, r[e].(start := end));
        return Done, e + 1, s, d;
      }
      if rev == Documented {
        TopSplitStep(c, e, s, start, end, typ);
      } else {
        TopSpiltStep(c, e, s, start, end, typ);
        if r[e + 1].start == 0 {
          return PastEnd, e, s, c;
        }
      }
      var ok;
      ok, d := SplitTop(rev, c, e, end, typ);
      if !ok {
        return NoSpace, e, s, c;
      }
      return Done, e + (if rev == Documented then 2 else 3), s + 1, d;
    }

    /** Lines 107-112, and as written lines 114-116 behind them. */
    method SplitTop(rev: Revision, ghost c: seq<Region>, e: nat, end: nat, typ: nat)
      returns (ok: bool, ghost d: seq<Region>)
      requires r.Length == MMAP_MAX_NUM_ENTRIES && Holds(c) && e < |c| - 1 && end > 0
      requires rev == AsWritten ==> e < |c| - 2
      modifies r
      ensures ok <==> |c| < MMAP_MAX_NUM_ENTRIES
      ensures ok ==> Holds(d) && d == if rev == Documented then TopSplit(c, e, end, typ) else TopSpilt(c, e, end, typ)
    {
      HoldsAt(c);
      ok, d := InsertEntry(c, e, r[e].(start := end));
      if ok {
        HoldsAt(d);
        d := SetEntry(d, e + 1, r[e + 1].(typ := typ));
        assert d == TopSplit(c, e, end, typ);
        if rev == AsWritten {
          HoldsAt(d);
          d := SetEntry(d, e + 2, r[e + 2].(start := end));
          assert d == TopSpilt(c, e, end, typ);
        }
      }
    }

    /** Lines 132-135: cut entry i, which starts at `start`, at `end`. */
    method CutFront(ghost c: seq<Region>, i: nat, start: nat, end: nat, typ: nat)
      returns (ok: bool, ghost d: seq<Region>)
      requires r.Length == MMAP_MAX_NUM_ENTRIES && Holds(c) && i < |c| && c[i].start == start && end > 0
      modifies r
      ensures ok <==> |c| < MMAP_MAX_NUM_ENTRIES
      ensures ok ==> d == c[..i] + [Region(end, c[i].typ), Region(start, typ)] + c[i + 1..] && Holds(d)
    {
      HoldsAt(c);
      ok, d := InsertEntry(c, i, r[i].(start := end));
      if ok {
        assert |d| == |c| + 1 && d[i + 1] == c[i] && (start == 0 <==> i == |c| - 1);
        d := SetEntry(d, i + 1, Region(start, typ));
        assert d == c[..i] + [Region(end, c[i].typ), Region(start, typ)] + c[i + 1..];
      }
    }

    /** Lines 118-139. */
    method Finish(rev: Revision, ghost c: seq<Region>, endidx: nat, startidx: nat, endaligned: bool,
                  start: nat, end: nat, typ: nat) returns (o: Outcome)
      requires Turning(c, endidx, startidx, endaligned, start, end) && startidx <= endidx
      modifies this, r
      ensures o == Done || o == NoSpace
      ensures o == Done ==> Valid()
      ensures endaligned ==> Some(contents) == SweepLeft(rev, c, endidx, startidx, start, end, typ)
      ensures endaligned ==> (o == NoSpace <==> |contents| > MMAP_MAX_NUM_ENTRIES)
      ensures !endaligned ==> (o == NoSpace <==> RunsFull(rev, c, endidx, startidx, start, end, typ))
      ensures o == Done && !endaligned ==> Some(contents) == Unswept(rev, c, endidx, startidx, start, end, typ)
      ensures o == NoSpace ==> |c| + (if endaligned then 1 else 2) > MMAP_MAX_NUM_ENTRIES
    {
      hide Unswept, Sweep, First;
      HoldsAt(c);
      ghost var d := c;
      if endaligned {
        if endidx == startidx {
          LastStep(rev, c, startidx, start, end, typ);
        }
      } else {
        OneEntryStep(rev, c, startidx, start, end, typ);
      }
      var ok := true;
      if r[endidx].typ >= typ {
      } else if endaligned {
        if r[startidx].start == start {
          d := SetEntry(c, startidx, r[startidx].(typ := typ));
        } else {
          ok, d := InsertEntry(c, startidx, Region(start, typ));
        }
      } else if r[startidx].start == start {
        ok, d := CutFront(c, startidx, start, end, typ);
      } else {
        ok, d := CutEntry(c, startidx, start, end, typ);
      }
      contents := d;
      return if ok then Done else NoSpace;
    }

    /** The loop of mmap_split_at: the entry that holds `addr`. */
    method FindEntry(ghost c: seq<Region>, addr: nat) returns (i: nat)
      requires Holds(c)
      ensures i < |c| && i == First(c, addr)
    {
      HoldsAt(c);
      LastStarts(c);
      hide First, Holds, Terminated;
      i := 0;
      while r[i].start > addr
        invariant i < |c| && forall k :: 0 <= k < i ==> c[k].start > addr
        decreases |c| - i
      {
        i := i + 1;
      }
      FirstUnique(c, addr, i);
    }

    /** mmap_split_at */
    method SplitAt(addr: nat) returns (o: Outcome)
      requires Valid()
      modifies this, r
      ensures o == BadArgument <==> !PageAligned(addr)
      ensures o == BadArgument ==> contents == old(contents) && Valid()
      ensures o == Done ==> Valid() && First(old(contents), addr) < |old(contents)|
                            && contents == Split(old(contents), addr)
      ensures o == NoSpace <==> PageAligned(addr) && |old(contents)| == MMAP_MAX_NUM_ENTRIES
                                && !StartsAt(old(contents), addr)
      ensures o != PastEnd
    {
      if !PageAligned(addr) {
        return BadArgument;
      }
      ghost var c := contents;
      HoldsAt(c);
      var i := FindEntry(c, addr);
      hide First, PageAligned;
      if r[i].start == addr {
        return Done;
      }
      ghost var d;
      var ok;
      ok, d := InsertEntry(c, i, r[i].(start := addr));
      if !ok {
        return NoSpace;
      }
      contents := d;
      assert d == c[..i] + ([Region(addr, c[i].typ)] + c[i..]);
      return Done;
    }
  }

  lemma LastStarts(c: seq<Region>)
    requires Terminated(c)
    ensures forall i :: 0 <= i < |c| ==> (c[i].start == 0 <==> i == |c| - 1)
  {
  }

  lemma FirstUnique(c: seq<Region>, at: nat, i: nat)
    requires i < |c| && c[i].start <= at
    requires forall k :: 0 <= k < i ==> c[k].start > at
    ensures First(c, at) == i
  {
  }
}
