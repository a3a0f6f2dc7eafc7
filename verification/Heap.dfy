/** The kernel heap of kernel/mem/heap.c: chunks with a header word tile the heap up to the
    break, free chunks hang in one circular list per size (include/tmos/ds/list.h), and new
    chunks are cut from the front of the last one. */
module Heap {
  import opened Common

  // ----- bins -----

  const HEAP_NUM_BINS := 54
  const MAX_SIZE := 3840

  /** The table of bin sizes. */
  function BinSize(i: nat): nat
    requires i < HEAP_NUM_BINS
  {
    if i < 14 then 16 + 8 * i
    else if i < 22 then 128 + 16 * (i - 14)
    else if i < 30 then 256 + 32 * (i - 22)
    else if i < 38 then 512 + 64 * (i - 30)
    else if i < 46 then 1024 + 128 * (i - 38)
    else 2048 + 256 * (i - 46)
  }

  function RoundUp(x: nat, y: nat): nat
    requires y > 0
  {
    (x + (y - 1)) / y * y
  }

  /** _get_size, for the sizes that pass its assertion. */
  function GetSize(req: nat): nat
    requires req <= MAX_SIZE
  {
    if req <= 24 then 24
    else if req <= 128 then RoundUp(req, 8)
    else if req <= 256 then RoundUp(req, 16)
    else if req <= 512 then RoundUp(req, 32)
    else if req <= 1024 then RoundUp(req, 64)
    else if req <= 2048 then RoundUp(req, 128)
    else RoundUp(req, 256)
  }

  /** _get_bin_idx; lines 266 and 268 as they stand start one bin too high. */
  function GetBinIdx(rev: Revision, binsz: nat): int
    requires binsz <= MAX_SIZE
  {
    var first := if rev == AsWritten then 1 else 2;
    if binsz <= 128 then binsz / 8 - first
    else
      var base := 16 - first;
      if binsz <= 256 then base + (binsz - 128) / 16
      else if binsz <= 512 then base + 8 + (binsz - 256) / 32
      else if binsz <= 1024 then base + 16 + (binsz - 512) / 64
      else if binsz <= 2048 then base + 24 + (binsz - 1024) / 128
      else base + 32 + (binsz - 2048) / 256
  }

  predicate IsBinSize(s: int) {
    24 <= s <= MAX_SIZE && 0 <= GetBinIdx(Documented, s) < HEAP_NUM_BINS && BinSize(GetBinIdx(Documented, s)) == s
  }

  /** The index of a bin's own size: the bin itself, and as written its right neighbour. */
  lemma BinIndexInverts(i: nat)
    requires i < HEAP_NUM_BINS
    ensures BinSize(i) <= MAX_SIZE && BinSize(i) % 8 == 0
    ensures GetBinIdx(Documented, BinSize(i)) == i
    ensures GetBinIdx(AsWritten, BinSize(i)) == i + 1
  {
  }

  lemma RoundUpIsLeast(x: nat, y: nat, m: nat)
    requires y > 0
    ensures RoundUp(x, y) >= x && RoundUp(x, y) % y == 0 && RoundUp(x, y) < x + y
    ensures m * y >= x ==> m * y >= RoundUp(x, y)
  {
    var k, r := (x + (y - 1)) / y, (x + (y - 1)) % y;
    assert x + (y - 1) == k * y + r;
    DivMod(k * y, y, k, 0);
    if m < k {
      MulMono(m + 1, k, y);
      assert (m + 1) * y == m * y + y;
    } else {
      MulMono(k, m, y);
    }
  }

  /** The step between bin sizes in the neighbourhood of a size. */
  function StepAt(s: nat): nat {
    if s <= 128 then 8 else if s <= 256 then 16 else if s <= 512 then 32
    else if s <= 1024 then 64 else if s <= 2048 then 128 else 256
  }

  /** Every bin size from a size on upwards is a multiple of the step at that size. */
  lemma BinSizesAreMultiples(i: nat, req: nat) returns (m: nat)
    requires i < HEAP_NUM_BINS && BinSize(i) >= req
    ensures BinSize(i) == m * StepAt(req)
  {
    var q := BinIsMultiple(i);
    m := StepAt(BinSize(i)) / StepAt(req) * q;
    assert StepAt(BinSize(i)) / StepAt(req) * StepAt(req) == StepAt(BinSize(i));
    Reassociate(StepAt(BinSize(i)) / StepAt(req), q, StepAt(req));
  }

  lemma Reassociate(a: int, b: int, c: int)
    ensures a * b * c == a * c * b
  {
  }

  lemma BinIsMultiple(i: nat) returns (q: nat)
    requires i < HEAP_NUM_BINS
    ensures BinSize(i) == StepAt(BinSize(i)) * q
  {
    q := i + 2 - (if i <= 14 then 0 else if i <= 22 then 8 else if i <= 30 then 16
                  else if i <= 38 then 24 else if i <= 46 then 32 else 40);
  }

  lemma MultiplesAreBinSizes(s: nat)
    requires 24 <= s <= MAX_SIZE && s % StepAt(s) == 0
    ensures IsBinSize(s)
  {
  }

  /** _get_size returns the least bin size that holds the request, no less than 24. */
  lemma GetSizeIsLeast(req: nat)
    requires req <= MAX_SIZE
    ensures IsBinSize(GetSize(req)) && GetSize(req) >= req
    ensures forall i: nat :: i < HEAP_NUM_BINS && BinSize(i) >= req && BinSize(i) >= 24 ==> BinSize(i) >= GetSize(req)
  {
    if req > 24 {
      RoundUpIsLeast(req, StepAt(req), 0);
      MultiplesAreBinSizes(GetSize(req));
      forall i: nat | i < HEAP_NUM_BINS && BinSize(i) >= req && BinSize(i) >= 24
        ensures BinSize(i) >= GetSize(req)
      {
        var m := BinSizesAreMultiples(i, req);
        RoundUpIsLeast(req, StepAt(req), m);
      }
    }
  }

  /** As written the table is left exactly for requests above 3584 bytes. */
  lemma AsWrittenIndexInTableExactly(req: nat)
    requires req <= MAX_SIZE
    ensures GetBinIdx(AsWritten, GetSize(req)) < HEAP_NUM_BINS <==> req <= 3584
  {
  }

  /** As written kmalloc serves a request from the bin after its own and kfree files the chunk one
      bin too high again: the two meet, so a chunk found in a bin still has the request's size. */
  lemma AsWrittenBinsMeet(req: nat, s: nat)
    requires req <= MAX_SIZE && IsBinSize(s) && GetBinIdx(AsWritten, s) == GetBinIdx(AsWritten, GetSize(req))
    ensures s == GetSize(req) >= req
  {
    hide BinSize, GetSize;
    GetSizeIsLeast(req);
    BinIndexInverts(GetBinIdx(Documented, s));
    BinIndexInverts(GetBinIdx(Documented, GetSize(req)));
  }

  /** As written a fresh block has the size of the bin after its own, and freeing it stays inside
      the table exactly for requests up to 3328 bytes. */
  lemma AsWrittenFreeInTableExactly(req: nat)
    requires req <= 3584
    ensures var s := BinSize(GetBinIdx(AsWritten, GetSize(req)));
            s > GetSize(req) >= req && (GetBinIdx(AsWritten, s) < HEAP_NUM_BINS <==> req <= 3328)
  {
    hide BinSize, GetSize, GetBinIdx;
    GetSizeIsLeast(req);
    AsWrittenIndexInTableExactly(req);
    var i := GetBinIdx(Documented, GetSize(req));
    BinIndexInverts(i);
    BinIndexInverts(i + 1);
    NextBinIsLarger(i);
    LastBinsExactly(req);
  }

  lemma NextBinIsLarger(i: nat)
    requires i + 1 < HEAP_NUM_BINS
    ensures BinSize(i) < BinSize(i + 1)
  {
  }

  lemma LastBinsExactly(req: nat)
    requires req <= 3584
    ensures GetBinIdx(Documented, GetSize(req)) + 2 < HEAP_NUM_BINS <==> req <= 3328
  {
  }

  // ----- memory words -----

  type WordMap = map<int, int>

  const NULL := -1

  function Get(w: WordMap, a: int): int {
    if a in w then w[a] else 0
  }

  /** _chunk_memsz: the header word without its three flag bits. */
  function Size(w: WordMap, c: int): int {
    Get(w, c) / 8 * 8
  }

  predicate Used(w: WordMap, c: int) {
    Get(w, c) % 2 == 1
  }

  /** chunk->memsz |= 1, &= ~1 and |= 2. */
  function SetUsed(w: WordMap, c: int): WordMap {
    w[c := if Used(w, c) then Get(w, c) else Get(w, c) + 1]
  }

  function SetFree(w: WordMap, c: int): WordMap {
    w[c := if Used(w, c) then Get(w, c) - 1 else Get(w, c)]
  }

  function SetPrevUsed(w: WordMap, c: int): WordMap {
    w[c := if Get(w, c) / 2 % 2 == 1 then Get(w, c) else Get(w, c) + 2]
  }

  lemma FlagBits(v: int)
    ensures v % 2 == 0 ==> (v + 1) / 8 == v / 8 && (v + 1) % 2 == 1
    ensures v % 2 == 1 ==> (v - 1) / 8 == v / 8 && (v - 1) % 2 == 0
    ensures v / 2 % 2 == 0 ==> (v + 2) / 8 == v / 8 && (v + 2) % 2 == v % 2
  {
    var q, r := v / 8, v % 8;
    LowBits(v, q, r);
    if v % 2 == 0 {
      LowBits(v + 1, q, r + 1);
    } else {
      LowBits(v - 1, q, r - 1);
    }
    if v / 2 % 2 == 0 {
      LowBits(v + 2, q, r + 2);
    }
  }

  lemma LowBits(v: int, q: int, r: int)
    requires v == 8 * q + r && 0 <= r < 8
    ensures v / 8 == q && v % 2 == r % 2
    ensures v / 2 % 2 == (if r == 2 || r == 3 || r == 6 || r == 7 then 1 else 0)
  {
    var h := if r < 2 then 0 else if r < 4 then 1 else if r < 6 then 2 else 3;
    var b := if r == 0 || r == 2 || r == 4 || r == 6 then 0 else 1;
    DivMod(v, 8, q, r);
    DivMod(v, 2, 4 * q + h, b);
    DivMod(v / 2, 2, 2 * q + h / 2, h % 2);
  }

  lemma FlagsKeepSize(w: WordMap, c: int)
    ensures Size(SetUsed(w, c), c) == Size(w, c) && Used(SetUsed(w, c), c)
    ensures Size(SetFree(w, c), c) == Size(w, c) && !Used(SetFree(w, c), c)
    ensures Size(SetPrevUsed(w, c), c) == Size(w, c) && (Used(SetPrevUsed(w, c), c) <==> Used(w, c))
    ensures Get(SetUsed(w, c), c) / 2 == Get(w, c) / 2 == Get(SetFree(w, c), c) / 2
    ensures Get(SetPrevUsed(w, c), c) / 2 % 2 == 1
  {
    FlagBits(Get(w, c));
  }

  // ----- circular lists -----

  /** list.prev and list.next of the chunk (or bin head) at c. */
  function Prev(w: WordMap, c: int): int {
    Get(w, c + 8)
  }

  function Next(w: WordMap, c: int): int {
    Get(w, c + 16)
  }

  function WithPrev(w: WordMap, c: int, v: int): WordMap {
    w[c + 8 := v]
  }

  function WithNext(w: WordMap, c: int, v: int): WordMap {
    w[c + 16 := v]
  }

  /** __list_add_between; list.h:26 as it stands stores prev where next belongs. */
  function AddBetween(rev: Revision, w: WordMap, node: int, prev: int, next: int): WordMap {
    var link := if rev == AsWritten then prev else next;
    WithNext(WithPrev(WithNext(WithPrev(w, next, node), node, link), node, prev), prev, node)
  }

  function AddFront(rev: Revision, w: WordMap, head: int, node: int): WordMap {
    AddBetween(rev, w, node, head, Next(w, head))
  }

  /** list_del */
  function Delete(w: WordMap, node: int): WordMap {
    var prev, next := Prev(w, node), Next(w, node);
    WithPrev(WithNext(WithNext(WithPrev(w, next, prev), prev, next), node, NULL), node, NULL)
  }

  /** Position k on the way around the list: the head, the nodes, the head again. */
  function At(head: int, list: seq<int>, k: int): int {
    if 1 <= k <= |list| then list[k - 1] else head
  }

  ghost predicate Linked(w: WordMap, head: int, list: seq<int>, k: int) {
    Next(w, At(head, list, k)) == At(head, list, k + 1) && Prev(w, At(head, list, k + 1)) == At(head, list, k)
  }

  /** head is the head of a circular list of exactly the nodes of `list`, in both directions. */
  ghost predicate Ring(w: WordMap, head: int, list: seq<int>) {
    forall k :: 0 <= k <= |list| ==> Linked(w, head, list, k)
  }

  /** Different positions are different nodes, whose fields do not overlap. */
  ghost predicate Distinct(head: int, list: seq<int>) {
    && (forall i :: 0 <= i < |list| ==> Apart(head, list[i]))
    && (forall i, j :: 0 <= i < j < |list| ==> Apart(list[i], list[j]))
  }

  predicate Apart(a: int, b: int) {
    a + 24 <= b || b + 24 <= a
  }

  lemma AddFrontRing(w: WordMap, head: int, list: seq<int>, node: int)
    requires Ring(w, head, list) && Distinct(head, [node] + list)
    ensures Ring(AddFront(Documented, w, head, node), head, [node] + list)
  {
    var w1, list1 := AddFront(Documented, w, head, node), [node] + list;
    assert Linked(w, head, list, 0);
    assert forall k :: 2 <= k <= |list1| + 1 ==> At(head, list1, k) == At(head, list, k - 1);
    forall k | 0 <= k <= |list1|
      ensures Linked(w1, head, list1, k)
    {
      if k >= 2 {
        assert Linked(w, head, list, k - 1);
        assert Apart(list1[0], list1[k - 1]) && Apart(head, list1[k - 1]);
        if k < |list1| {
          assert Apart(list1[1], list1[k]) && Apart(list1[0], list1[k]) && Apart(head, list1[k]);
        }
        if k > 2 {
          assert Apart(list1[1], list1[k - 1]);
        }
      }
    }
  }

  lemma DeleteFrontRing(w: WordMap, head: int, list: seq<int>)
    requires Ring(w, head, list) && Distinct(head, list) && list != []
    ensures Ring(Delete(w, list[0]), head, list[1..])
  {
    var w1, list1 := Delete(w, list[0]), list[1..];
    assert Linked(w, head, list, 0) && Linked(w, head, list, 1);
    assert forall k :: 1 <= k <= |list| ==> At(head, list1, k) == At(head, list, k + 1);
    forall k | 0 <= k <= |list1|
      ensures Linked(w1, head, list1, k)
    {
      if k >= 1 {
        assert Linked(w, head, list, k + 1);
        assert Apart(list[0], list[k]) && Apart(head, list[k]);
        if k + 1 < |list| {
          assert Apart(list[0], list[k + 1]) && Apart(head, list[k + 1]) && Apart(list[1], list[k + 1]);
        }
        if k > 1 {
          assert Apart(list[1], list[k]);
        }
      }
    }
  }

  /** list.h:26 as it stands is right exactly when the list was empty; otherwise everything but
      the new node drops out of the list. */
  lemma AddFrontAsWrittenExactly(w: WordMap, head: int, list: seq<int>, node: int)
    requires Ring(w, head, list) && Distinct(head, [node] + list)
    ensures Ring(AddFront(AsWritten, w, head, node), head, [node] + list) <==> list == []
    ensures Next(AddFront(AsWritten, w, head, node), head) == node
    ensures Next(AddFront(AsWritten, w, head, node), node) == head
  {
    var w1, list1 := AddFront(AsWritten, w, head, node), [node] + list;
    assert Linked(w, head, list, 0);
    assert Apart(head, list1[0]);
    if list == [] {
      AddFrontRing(w, head, list, node);
    } else {
      assert Apart(list1[0], list1[1]) && Apart(head, list1[1]);
      assert At(head, list1, 1) == node && At(head, list1, 2) == list[0];
      assert !Linked(w1, head, list1, 1);
    }
  }
}
