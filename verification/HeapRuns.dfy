/** A client of the kernel heap: whatever it allocates, frees and stores, its blocks stay apart
    and hold what it last stored in them. */
module HeapRuns {
  import opened Common
  import opened Heap
  import opened KernelHeap

  /** What a client asks for: memory, the release of a block, a store at a byte of a block. */
  datatype Request = Alloc(size: nat) | Release(ptr: int) | Write(ptr: int, offset: nat, value: int)

  /** What came of it; requests a client would not make are skipped. */
  datatype Event = Got(ptr: int, size: nat) | Refused | Gave(ptr: int) | Wrote(addr: int, value: int) | Skipped

  /** The blocks the client holds after these events, with the sizes it asked for. */
  function Held(events: seq<Event>): map<int, nat> {
    if events == [] then map[]
    else
      var before := Held(events[..|events| - 1]);
      match events[|events| - 1]
      case Got(ptr, size) => before[ptr := size]
      case Gave(ptr) => before - {ptr}
      case _ => before
  }

  /** What the client last stored in the blocks it holds, as if it were alone with its memory. */
  function Stored(events: seq<Event>): map<int, int> {
    if events == [] then map[]
    else
      var earlier := events[..|events| - 1];
      match events[|events| - 1]
      case Gave(ptr) => map a | a in Stored(earlier) && !Within(Held(earlier), ptr, a) :: Stored(earlier)[a]
      case Wrote(a, v) => Stored(earlier)[a := v]
      case _ => Stored(earlier)
  }

  predicate Within(held: map<int, nat>, ptr: int, a: int) {
    ptr in held && ptr <= a < ptr + held[ptr]
  }

  /** A request a client may make: it frees and writes only blocks it holds, in whole words. */
  predicate Legal(held: map<int, nat>, r: Request) {
    match r
    case Alloc(_) => true
    case Release(ptr) => ptr in held
    case Write(ptr, offset, _) => ptr in held && offset % 8 == 0 && offset + 8 <= held[ptr]
  }

  /** The blocks in use are exactly the ones the client holds. */
  ghost predicate Backed(w: WordMap, chunks: seq<int>, held: map<int, nat>) {
    forall c :: c in chunks && Used(w, c) <==> c + 8 in held
  }

  ghost predicate LargeEnough(w: WordMap, held: map<int, nat>) {
    forall p :: p in held ==> held[p] <= Size(w, p - 8)
  }

  /** Every stored value is in memory, inside a block the client holds. */
  ghost predicate Intact(w: WordMap, held: map<int, nat>, stored: map<int, int>) {
    forall a :: a in stored ==> Get(w, a) == stored[a] && exists p :: Within(held, p, a)
  }

  ghost predicate Tracked(w: WordMap, chunks: seq<int>, events: seq<Event>) {
    Backed(w, chunks, Held(events)) && LargeEnough(w, Held(events)) && Intact(w, Held(events), Stored(events))
  }

  lemma InUse(w: WordMap, chunks: seq<int>, held: map<int, nat>, p: int)
    requires Backed(w, chunks, held) && p in held
    ensures p - 8 in chunks && Used(w, p - 8)
  {
    assert p - 8 + 8 in held;
  }

  lemma Aligned(w: WordMap, chunks: seq<int>, brk: int, k: nat)
    requires Tiled(w, chunks, brk) && k < |chunks|
    ensures chunks[k] % 8 == 0
  {
    if k > 0 {
      assert Fits(w, chunks, brk, k - 1);
      Aligned(w, chunks, brk, k - 1);
    }
  }

  /** Blocks held together share no byte, are aligned, and lie inside the heap. */
  lemma HeldApart(w: WordMap, chunks: seq<int>, brk: int, bins: seq<seq<int>>, events: seq<Event>, p: int, q: int)
    requires Inv(w, chunks, brk, bins) && Tracked(w, chunks, events) && p in Held(events) && q in Held(events)
    ensures 0 < p && p % 8 == 0 && p + Held(events)[p] <= brk
    ensures p != q ==> p + Held(events)[p] <= q || q + Held(events)[q] <= p
  {
    hide Inv, Held, Tiled;
    InvTiled(w, chunks, brk, bins);
    InUse(w, chunks, Held(events), p);
    InUse(w, chunks, Held(events), q);
    Inside(w, chunks, brk, p - 8);
    var k: nat :| k < |chunks| && chunks[k] == p - 8;
    Aligned(w, chunks, brk, k);
    if p != q {
      Disjoint(w, chunks, brk, p - 8, q - 8);
    }
  }

  /** Whatever leaves the other blocks alone leaves their sizes and stored words alone. */
  lemma OthersTracked(w: WordMap, w1: WordMap, chunks: seq<int>, events: seq<Event>, c: int, p: int, a: int)
    requires Tracked(w, chunks, events) && OthersKept(w, w1, chunks, c) && p in Held(events) && p != c + 8
    ensures Size(w1, p - 8) == Size(w, p - 8)
    ensures a in Stored(events) && Within(Held(events), p, a) ==> Get(w1, a) == Stored(events)[a]
  {
    hide Held, Stored;
    InUse(w, chunks, Held(events), p);
    assert SameBlock(w, w1, p - 8);
  }

  lemma Extended(events: seq<Event>, e: Event)
    ensures (events + [e])[..|events + [e]| - 1] == events
  {
  }

  lemma GotTracked(w: WordMap, w1: WordMap, chunks: seq<int>, chunks1: seq<int>, events: seq<Event>, c: int, size: nat)
    requires Tracked(w, chunks, events) && OthersKept(w, w1, chunks, c) && size <= Size(w1, c)
    requires !(c in chunks && Used(w, c)) && c in chunks1 && Used(w1, c)
    requires forall d :: d != c ==> (d in chunks1 && Used(w1, d) <==> d in chunks && Used(w, d))
    ensures Tracked(w1, chunks1, events + [Got(c + 8, size)])
  {
    hide Used, Size;
    Extended(events, Got(c + 8, size));
    var held, held1, stored := Held(events), Held(events)[c + 8 := size], Stored(events);
    assert c + 8 !in held;
    assert Backed(w1, chunks1, held1);
    forall p | p in held1
      ensures held1[p] <= Size(w1, p - 8)
    {
      if p != c + 8 {
        OthersTracked(w, w1, chunks, events, c, p, 0);
      }
    }
    forall a | a in stored
      ensures Get(w1, a) == stored[a] && exists p :: Within(held1, p, a)
    {
      var p :| Within(held, p, a);
      OthersTracked(w, w1, chunks, events, c, p, a);
      assert Within(held1, p, a);
    }
  }

  lemma GaveTracked(w: WordMap, w1: WordMap, chunks: seq<int>, events: seq<Event>, c: int)
    requires Tracked(w, chunks, events) && OthersKept(w, w1, chunks, c) && c + 8 in Held(events)
    requires forall d :: d in chunks && Used(w1, d) <==> d != c && d in chunks && Used(w, d)
    ensures Tracked(w1, chunks, events + [Gave(c + 8)])
  {
    hide Used, Size;
    Extended(events, Gave(c + 8));
    var held, held1, stored := Held(events), Held(events) - {c + 8}, Stored(events);
    assert Backed(w1, chunks, held1);
    forall p | p in held1
      ensures held1[p] <= Size(w1, p - 8)
    {
      OthersTracked(w, w1, chunks, events, c, p, 0);
    }
    forall a | a in stored && !Within(held, c + 8, a)
      ensures Get(w1, a) == stored[a] && exists p :: Within(held1, p, a)
    {
      var p :| Within(held, p, a);
      OthersTracked(w, w1, chunks, events, c, p, a);
      assert Within(held1, p, a);
    }
  }

  lemma WroteTracked(w: WordMap, chunks: seq<int>, events: seq<Event>, p: int, a: int, v: int)
    requires Tracked(w, chunks, events) && Within(Held(events), p, a)
    requires forall d :: d in chunks ==> (Used(w[a := v], d) <==> Used(w, d)) && Size(w[a := v], d) == Size(w, d)
    ensures Tracked(w[a := v], chunks, events + [Wrote(a, v)])
  {
    hide Used, Size;
    Extended(events, Wrote(a, v));
    var w1, held, stored1 := w[a := v], Held(events), Stored(events)[a := v];
    assert Backed(w1, chunks, held);
    forall q | q in held
      ensures held[q] <= Size(w1, q - 8)
    {
      InUse(w, chunks, held, q);
    }
    forall b | b in stored1
      ensures Get(w1, b) == stored1[b] && exists q :: Within(held, q, b)
    {
    }
  }

  lemma QuietTracked(w: WordMap, chunks: seq<int>, events: seq<Event>, e: Event)
    requires Tracked(w, chunks, events) && (e == Refused || e == Skipped)
    ensures Tracked(w, chunks, events + [e])
  {
    Extended(events, e);
  }

  /** What a request does to a heap, and the event it causes after these events. */
  ghost function Step(rev: Revision, st: HeapState, before: seq<Event>, r: Request): (HeapState, Event) {
    if !Legal(Held(before), r) then (st, Skipped)
    else
      match r
      case Alloc(size) =>
        var (st1, grant) := Malloc(rev, st, size);
        (st1, if grant.Block? then Got(grant.ptr, size) else Refused)
      case Release(ptr) => (FreeBlock(rev, st, ptr).0, Gave(ptr))
      case Write(ptr, offset, value) => (st.(w := st.w[ptr + offset := value]), Wrote(ptr + offset, value))
  }

  /** The heap and the events after a whole run. */
  ghost function Replay(rev: Revision, st: HeapState, requests: seq<Request>): (HeapState, seq<Event>) {
    if requests == [] then (st, [])
    else
      var (st1, events) := Replay(rev, st, requests[..|requests| - 1]);
      var (st2, e) := Step(rev, st1, events, requests[|requests| - 1]);
      (st2, events + [e])
  }

  /** The event a request must cause: a block of the size asked for, unless the size is out of range
      or the heap is exhausted for it at this moment. */
  ghost predicate Answers(st: HeapState, before: seq<Event>, r: Request, e: Event) {
    if !Legal(Held(before), r) then e == Skipped
    else
      match r
      case Alloc(size) =>
        && (e == Refused || (e.Got? && e.size == size && e.ptr !in Held(before)))
        && (e == Refused <==> size == 0 || size > MAX_SIZE || Exhausted(Documented, st, size))
      case Release(ptr) => e == Gave(ptr)
      case Write(ptr, offset, value) => e == Wrote(ptr + offset, value)
  }

  ghost predicate Served(st: HeapState, requests: seq<Request>, events: seq<Event>) {
    && |events| == |requests|
    && forall k :: 0 <= k < |events| ==>
         Answers(Replay(Documented, st, requests[..k]).0, events[..k], requests[k], events[k])
  }

  /** kmalloc */
  method PerformAlloc(h: KernelHeap, size: nat, events: seq<Event>) returns (e: Event)
    requires h.Valid() && Tracked(h.w, h.chunks, events)
    modifies h
    ensures h.Valid() && Tracked(h.w, h.chunks, events + [e])
    ensures (h.State(), e) == Step(Documented, old(h.State()), events, Alloc(size))
    ensures Answers(old(h.State()), events, Alloc(size), e)
  {
    hide Inv, OthersKept, Tracked, Held, Stored, Malloc, Exhausted;
    TrackedBacked(h.w, h.chunks, events);
    ghost var w0, chunks0 := h.w, h.chunks;
    var grant := h.Kmalloc(size);
    if !grant.Block? {
      QuietTracked(h.w, h.chunks, events, Refused);
      return Refused;
    }
    ghost var c := grant.ptr - 8;
    assert !(c in chunks0 && Used(w0, c)) && h.Allocated(c);
    assert c + 8 !in Held(events);
    forall d | d != c
      ensures d in h.chunks && Used(h.w, d) <==> d in chunks0 && Used(w0, d)
    {
      assert h.Allocated(d) <==> old(h.Allocated(d));
    }
    GotTracked(w0, h.w, chunks0, h.chunks, events, c, size);
    e := Got(grant.ptr, size);
  }

  /** kfree */
  method PerformRelease(h: KernelHeap, ptr: int, events: seq<Event>) returns (e: Event)
    requires h.Valid() && Tracked(h.w, h.chunks, events) && ptr in Held(events)
    modifies h
    ensures h.Valid() && Tracked(h.w, h.chunks, events + [e])
    ensures h.State() == FreeBlock(Documented, old(h.State()), ptr).0 && e == Gave(ptr)
  {
    hide Inv, OthersKept, Tracked, Held, Stored, FreeBlock;
    TrackedBacked(h.w, h.chunks, events);
    ghost var w0, chunks0 := h.w, h.chunks;
    InUse(w0, chunks0, Held(events), ptr);
    assert h.Allocated(ptr - 8);
    var ok := h.Kfree(ptr);
    forall d
      ensures d in chunks0 && Used(h.w, d) <==> d != ptr - 8 && d in chunks0 && Used(w0, d)
    {
      assert d != ptr - 8 ==> (h.Allocated(d) <==> old(h.Allocated(d)));
    }
    GaveTracked(w0, h.w, chunks0, events, ptr - 8);
    e := Gave(ptr);
  }

  /** A store of the client. */
  method PerformWrite(h: KernelHeap, ptr: int, offset: nat, value: int, events: seq<Event>) returns (e: Event)
    requires h.Valid() && Tracked(h.w, h.chunks, events) && Legal(Held(events), Write(ptr, offset, value))
    modifies h
    ensures h.Valid() && Tracked(h.w, h.chunks, events + [e])
    ensures h.State() == old(h.State()).(w := old(h.w)[ptr + offset := value]) && e == Wrote(ptr + offset, value)
  {
    hide Inv, OthersKept, Tracked, Held, Stored;
    TrackedBacked(h.w, h.chunks, events);
    ghost var w0, chunks0 := h.w, h.chunks;
    InUse(w0, chunks0, Held(events), ptr);
    HeldFits(w0, chunks0, h.brk, h.bins, events, ptr);
    assert h.Allocated(ptr - 8);
    h.Store(ptr, ptr + offset, value);
    forall d | d in chunks0
      ensures Used(h.w, d) <==> Used(w0, d)
    {
      assert h.Allocated(d) <==> old(h.Allocated(d));
    }
    WroteTracked(w0, chunks0, events, ptr, ptr + offset, value);
    e := Wrote(ptr + offset, value);
  }

  /** One request and the event it causes. */
  method Perform(h: KernelHeap, r: Request, events: seq<Event>) returns (e: Event)
    requires h.Valid() && Tracked(h.w, h.chunks, events)
    modifies h
    ensures h.Valid() && Tracked(h.w, h.chunks, events + [e])
    ensures (h.State(), e) == Step(Documented, old(h.State()), events, r)
    ensures Answers(old(h.State()), events, r, e)
  {
    hide Inv, Tracked, Held, Malloc, FreeBlock, Exhausted;
    if !Legal(Held(events), r) {
      QuietTracked(h.w, h.chunks, events, Skipped);
      return Skipped;
    }
    match r
    case Alloc(size) => e := PerformAlloc(h, size, events);
    case Release(ptr) => e := PerformRelease(h, ptr, events);
    case Write(ptr, offset, value) => e := PerformWrite(h, ptr, offset, value, events);
  }

  lemma ReplayNext(st: HeapState, requests: seq<Request>, i: nat, st1: HeapState, events: seq<Event>, st2: HeapState,
                   e: Event)
    requires i < |requests| && Replay(Documented, st, requests[..i]) == (st1, events)
    requires Step(Documented, st1, events, requests[i]) == (st2, e)
    ensures Replay(Documented, st, requests[..i + 1]) == (st2, events + [e])
  {
    hide Step;
    assert requests[..i + 1][..i] == requests[..i];
  }

  lemma ServedNext(st: HeapState, requests: seq<Request>, i: nat, events: seq<Event>, e: Event)
    requires i < |requests| && Served(st, requests[..i], events)
    requires Answers(Replay(Documented, st, requests[..i]).0, events, requests[i], e)
    ensures Served(st, requests[..i + 1], events + [e])
  {
    hide Answers, Replay;
    var events1, requests1 := events + [e], requests[..i + 1];
    forall k | 0 <= k < |events1|
      ensures Answers(Replay(Documented, st, requests1[..k]).0, events1[..k], requests1[k], events1[k])
    {
      assert requests1[..k] == requests[..k] && (k < i ==> requests[..i][..k] == requests[..k]);
      if k < i {
        assert events1[..k] == events[..k];
        assert Answers(Replay(Documented, st, requests[..i][..k]).0, events[..k], requests[..i][k], events[k]);
      } else {
        assert events1[..k] == events;
      }
    }
  }

  lemma NothingServed(st: HeapState)
    ensures Replay(Documented, st, []) == (st, []) && Served(st, [], [])
  {
  }

  lemma TrackedBacked(w: WordMap, chunks: seq<int>, events: seq<Event>)
    requires Tracked(w, chunks, events)
    ensures Backed(w, chunks, Held(events))
  {
  }

  lemma HeldFits(w: WordMap, chunks: seq<int>, brk: int, bins: seq<seq<int>>, events: seq<Event>, ptr: int)
    requires Inv(w, chunks, brk, bins) && Tracked(w, chunks, events) && ptr in Held(events)
    ensures Held(events)[ptr] <= Size(w, ptr - 8) && ptr % 8 == 0
  {
    hide Inv, Held;
    HeldApart(w, chunks, brk, bins, events, ptr, ptr);
  }

  /** Any run of a client over a heap without blocks: heap and events are those of the replay on
      values, every request is answered in turn, the blocks the client holds are the blocks in use,
      and they hold what it last stored in them. */
  method Run(h: KernelHeap, requests: seq<Request>) returns (events: seq<Event>)
    requires h.Valid() && forall c :: !h.Allocated(c)
    modifies h
    ensures h.Valid() && Tracked(h.w, h.chunks, events)
    ensures Replay(Documented, old(h.State()), requests) == (h.State(), events)
    ensures Served(old(h.State()), requests, events)
  {
    hide Inv, Answers, Step, Replay;
    events := [];
    forall c
      ensures !(c in h.chunks && Used(h.w, c))
    {
      assert !h.Allocated(c);
    }
    ghost var st := h.State();
    NothingServed(st);
    for i := 0 to |requests|
      invariant h.Valid() && Tracked(h.w, h.chunks, events)
      invariant Replay(Documented, st, requests[..i]) == (h.State(), events) && Served(st, requests[..i], events)
    {
      ghost var st1 := h.State();
      var e := Perform(h, requests[i], events);
      ReplayNext(st, requests, i, st1, events, h.State(), e);
      ServedNext(st, requests, i, events, e);
      events := events + [e];
    }
    assert requests[..|requests|] == requests;
  }

  /** The same from heap_init on, over whatever the memory holds; `start` is the heap it leaves. */
  method Live(memory: WordMap, requests: seq<Request>)
    returns (h: KernelHeap, events: seq<Event>, ghost start: HeapState)
    ensures fresh(h) && h.Valid() && Tracked(h.w, h.chunks, events)
    ensures Initial(start) && exists bins :: Inv(start.w, [0], start.brk, bins)
    ensures Replay(Documented, start, requests) == (h.State(), events) && Served(start, requests, events)
  {
    hide Inv, Tracked, Answers, Replay, Served;
    h := new KernelHeap(memory);
    start := h.State();
    InitialInv(start);
    events := Run(h, requests);
  }
}
