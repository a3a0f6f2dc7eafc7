/** From the multiboot2 table in memory to the boot memory map: the rest of mem_load_mb2_mmap in
    kernel/multiboot2.c, which finds the memory map tag and reads its entries. */
module BootMap {
  import opened Common
  import opened MemoryMap
  import opened Multiboot
  import opened Tags

  const MB2_TAG_TYPE_MMAP := 6
  const HALF := 0x1_0000_0000

  /** sizeof(struct mb2_mmap_region), in bytes and in words. */
  const REGION_BYTES := 24
  const REGION_WORDS := 6

  // ----- entries as words -----

  predicate IsEntry(e: Entry) {
    Is64Bit(e) && e.typ < HALF
  }

  /** An entry as 32-bit words, low halves first, with its reserved word, filled up to the entry size
      that the tag declares. */
  function EntryWords(e: Entry, entsz: nat): (s: seq<nat>)
    requires entsz >= REGION_BYTES && entsz % 4 == 0
    ensures |s| == entsz / 4
  {
    [e.start % HALF, e.start / HALF, e.len % HALF, e.len / HALF, e.typ, 0] + seq(entsz / 4 - REGION_WORDS, _ => 0)
  }

  function EntriesWords(es: seq<Entry>, entsz: nat): (s: seq<nat>)
    requires entsz >= REGION_BYTES && entsz % 4 == 0
    ensures |s| == entsz / 4 * |es|
  {
    if es == [] then [] else EntryWords(es[0], entsz) + EntriesWords(es[1..], entsz)
  }

  /** The memory map tag of these entries. */
  function MmapTag(es: seq<Entry>, entsz: nat, version: nat): Tag
    requires entsz >= REGION_BYTES && entsz % 8 == 0
  {
    Tag(MB2_TAG_TYPE_MMAP, 16 + entsz * |es|, [entsz, version] + EntriesWords(es, entsz))
  }

  /** mb2_mmap[i] for an array of structs at word `at`. */
  function EntryAt(words: seq<nat>, at: nat, i: nat): Entry
    requires at + REGION_WORDS * (i + 1) <= |words|
  {
    var k := at + REGION_WORDS * i;
    Entry(words[k] + HALF * words[k + 1], words[k + 2] + HALF * words[k + 3], words[k + 4])
  }

  /** Line 91: the number of entries by the declared entry size. */
  function CountOf(size: nat, entsz: nat): nat
    requires size >= 16 && entsz > 0
  {
    (size - 16) / entsz
  }

  lemma CountIs(n: nat, entsz: nat)
    requires entsz > 0
    ensures CountOf(16 + entsz * n, entsz) == n
  {
    DivMod(entsz * n, entsz, n, 0);
  }

  /** With 24-byte entries the array of structs lies exactly over the entries. */
  lemma {:induction false} StructsFit(es: seq<Entry>, i: nat)
    requires i < |es| && forall e :: e in es ==> IsEntry(e)
    ensures |EntriesWords(es, REGION_BYTES)| == REGION_WORDS * |es| >= REGION_WORDS * (i + 1)
    ensures EntryAt(EntriesWords(es, REGION_BYTES), 0, i) == es[i]
  {
    var all, first := EntriesWords(es, REGION_BYTES), EntryWords(es[0], REGION_BYTES);
    var rest := EntriesWords(es[1..], REGION_BYTES);
    if i == 0 {
      assert es[0] in es;
      Halves(es[0].start);
      Halves(es[0].len);
    } else {
      StructsFit(es[1..], i - 1);
      assert all[REGION_WORDS..REGION_WORDS + |rest|] == rest;
      SameEntry(all, REGION_WORDS, rest, i - 1);
    }
  }

  lemma Halves(x: nat)
    ensures x % HALF + HALF * (x / HALF) == x
  {
  }

  /** What the code reads from the entries of a tag. */
  function ReadBack(es: seq<Entry>, entsz: nat): seq<Entry>
    requires entsz >= REGION_BYTES && entsz % 8 == 0
  {
    seq(|es|, i requires 0 <= i < |es| => (Longer(entsz / 4, |es|, i); EntryAt(EntriesWords(es, entsz), 0, i)))
  }

  lemma Longer(size: nat, n: nat, i: nat)
    requires size >= REGION_WORDS && i < n
    ensures REGION_WORDS * (i + 1) <= size * n
  {
    MulMono(REGION_WORDS, size, n);
  }

  /** The code steps through the entries by the size of its struct, whatever size the tag declares:
      every list of entries is read back exactly when that size is 24. */
  lemma ReadBackExactly(entsz: nat)
    requires entsz >= REGION_BYTES && entsz % 8 == 0
    ensures (forall es: seq<Entry> :: (forall e :: e in es ==> IsEntry(e)) ==> ReadBack(es, entsz) == es)
       <==> entsz == REGION_BYTES
  {
    if entsz == REGION_BYTES {
      forall es: seq<Entry> | forall e :: e in es ==> IsEntry(e)
        ensures ReadBack(es, entsz) == es
      {
        forall i: nat | i < |es|
          ensures ReadBack(es, entsz)[i] == es[i]
        {
          StructsFit(es, i);
        }
      }
    } else {
      SecondMisread(entsz);
    }
  }

  /** With longer entries the second one is read from the filling of the first. */
  lemma SecondMisread(entsz: nat)
    requires entsz > REGION_BYTES && entsz % 8 == 0
    ensures var es := [Entry(0, 0x1000, 1), Entry(0x1000, 0x1000, 1)];
            (forall e :: e in es ==> IsEntry(e)) && ReadBack(es, entsz)[1].start == 0
  {
    var es := [Entry(0, 0x1000, 1), Entry(0x1000, 0x1000, 1)];
    var words := EntriesWords(es, entsz);
    assert words[..entsz / 4] == EntryWords(es[0], entsz);
    assert words[REGION_WORDS] == 0 && words[REGION_WORDS + 1] == 0;
  }

  // ----- loading -----

  /** The table's first memory map tag holds these entries, of the size of the code's struct. */
  ghost predicate Describes(ts: seq<Tag>, k: nat, es: seq<Entry>, version: nat) {
    && AllSound(ts) && k < |ts| && ts[k] == MmapTag(es, REGION_BYTES, version)
    && (forall j :: 0 <= j < k ==> ts[j].typ != MB2_TAG_TYPE_MMAP)
    && forall e :: e in es ==> IsEntry(e)
  }

  /** mem_load_mb2_mmap: without a memory map tag it panics (None); otherwise the map is the one that
      loading the tag's entries and the table gives, if they all go in, and as documented they do when
      two array places for each are left and none of them passes 56 bits. */
  method LoadFromTable(rev: Revision, fw: Firmware, tabAddr: nat, ghost ts: seq<Tag>, ghost k: nat,
                       ghost es: seq<Entry>, ghost version: nat)
    returns (o: Option<Outcome>, regmap: Mmap)
    requires fw.table.Some? && fw.table.value == Table(ts) && AllSound(ts)
    requires Position(ts, MB2_TAG_TYPE_MMAP).Some? ==> Describes(ts, k, es, version)
    ensures fresh(regmap) && fresh(regmap.r)
    ensures o == None <==> Position(ts, MB2_TAG_TYPE_MMAP) == None
    ensures o == Some(Done) ==> regmap.Valid() && LoadAll(rev, es, tabAddr, |Table(ts)| * 4) == Some(regmap.contents)
    ensures o.Some? && rev == Documented && 3 + 2 * |es| <= MMAP_MAX_NUM_ENTRIES
            && tabAddr + |Table(ts)| * 4 + PAGE_SIZE <= WORD_LIMIT ==>
              o == Some(if AnyTooWide(es, tabAddr, |Table(ts)| * 4) then BadArgument else Done)
  {
    hide Table, Encode, Position, EntriesWords, LoadAll, Describes, CountOf, AnyTooWide;
    var at := fw.GetTag(MB2_TAG_TYPE_MMAP, ts);
    if at == None {
      regmap := new Mmap();
      return None, regmap;
    }
    var words := fw.table.value;
    TagFound(ts, k, es, version);
    CountIs(|es|, REGION_BYTES);
    var entries := ReadEntries(words, at.value + 4, CountOf(words[at.value + 1], words[at.value + 2]), es);
    var r;
    r, regmap := LoadMap(rev, entries, tabAddr, words[0]);
    o := Some(r);
  }

  /** mb2_mmap[0] to mb2_mmap[n - 1]. */
  method ReadEntries(words: seq<nat>, at: nat, n: nat, ghost es: seq<Entry>) returns (entries: seq<Entry>)
    requires n == |es| && forall e :: e in es ==> IsEntry(e)
    requires var part := EntriesWords(es, REGION_BYTES); at + |part| <= |words| && words[at..at + |part|] == part
    ensures entries == es
  {
    hide EntriesWords, EntryAt, IsEntry;
    entries := [];
    var i := 0;
    while i < n
      invariant i <= n && entries == es[..i]
    {
      StructsFit(es, i);
      SameEntry(words, at, EntriesWords(es, REGION_BYTES), i);
      entries := entries + [EntryAt(words, at, i)];
      i := i + 1;
    }
  }

  lemma SameEntry(words: seq<nat>, at: nat, part: seq<nat>, i: nat)
    requires at + |part| <= |words| && words[at..at + |part|] == part && REGION_WORDS * (i + 1) <= |part|
    ensures EntryAt(words, at, i) == EntryAt(part, 0, i)
  {
    assert forall x :: 0 <= x < |part| ==> part[x] == words[at + x];
  }

  /** Where the tag lies, and that the words behind its header are the entries. */
  lemma TagFound(ts: seq<Tag>, k: nat, es: seq<Entry>, version: nat)
    requires Describes(ts, k, es, version)
    ensures Position(ts, MB2_TAG_TYPE_MMAP).Some? && forall e :: e in es ==> IsEntry(e)
    ensures var words, p, part := Table(ts), 2 + Position(ts, MB2_TAG_TYPE_MMAP).value, EntriesWords(es, REGION_BYTES);
            && p + 4 + |part| <= |words| && words[p + 4..p + 4 + |part|] == part
            && words[p + 1] == 16 + REGION_BYTES * |es| && words[p + 2] == REGION_BYTES
            && words[0] == |words| * 4
  {
    hide Encode, Position, EntriesWords, MmapTag;
    var found := PositionIsFirst(ts, MB2_TAG_TYPE_MMAP);
    MmapTyped(es, version);
    assert ts[k].typ == MB2_TAG_TYPE_MMAP;
    var q := Position(ts, MB2_TAG_TYPE_MMAP).value;
    assert found == k;
    TagFirst(ts[k..], es, version);
    TableTail(ts);
    PartAt(Table(ts), 2, Encode(ts), q, Encode(ts[k..]), EntriesWords(es, REGION_BYTES));
  }

  lemma MmapTyped(es: seq<Entry>, version: nat)
    ensures MmapTag(es, REGION_BYTES, version).typ == MB2_TAG_TYPE_MMAP
  {
  }

  lemma PartAt(words: seq<nat>, a: nat, whole: seq<nat>, q: nat, rest: seq<nat>, part: seq<nat>)
    requires a <= |words| && words[a..] == whole && q <= |whole| && whole[q..] == rest
    requires 4 + |part| <= |rest| && rest[4..4 + |part|] == part
    ensures a + q + 4 + |part| <= |words| && words[a + q + 4..a + q + 4 + |part|] == part
    ensures words[a + q + 1] == rest[1] && words[a + q + 2] == rest[2]
  {
    assert words[a + q..] == rest;
    assert words[a + q..][1] == words[a + q + 1] && words[a + q..][2] == words[a + q + 2];
  }

  lemma TagFirst(ts: seq<Tag>, es: seq<Entry>, version: nat)
    requires ts != [] && ts[0] == MmapTag(es, REGION_BYTES, version)
    ensures var rest, part := Encode(ts), EntriesWords(es, REGION_BYTES);
            && 4 + |part| <= |rest| && rest[4..4 + |part|] == part
            && rest[1] == 16 + REGION_BYTES * |es| && rest[2] == REGION_BYTES
  {
    hide EntriesWords;
    var w := TagWords(ts[0]);
    assert Encode(ts) == w + Encode(ts[1..]);
    assert w == [MB2_TAG_TYPE_MMAP, 16 + REGION_BYTES * |es|, REGION_BYTES, version] + EntriesWords(es, REGION_BYTES);
  }
}
