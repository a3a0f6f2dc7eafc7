/** The multiboot2 information table of kernel/multiboot2.c: tags of any size, each padded to
    eight bytes, closed by the tag of type 0 (section 3.6 of the Multiboot2 specification).  A
    table is the sequence of its 32-bit words. */
module Tags {
  import opened Common

  datatype Tag = Tag(typ: nat, size: nat, body: seq<nat>)

  /** The tag in words behind its type and size: the body with its padding. */
  function Padded(size: nat): nat {
    (size + 7) / 8 * 2
  }

  /** The least multiple of eight bytes that holds the tag. */
  lemma PaddedIsLeast(size: nat)
    ensures var bytes := 4 * Padded(size); bytes % 8 == 0 && size <= bytes < size + 8
  {
  }

  predicate Sound(t: Tag) {
    t.typ != 0 && 8 <= t.size < 0xffff_fff9 && |t.body| == Padded(t.size) - 2
  }

  ghost predicate AllSound(ts: seq<Tag>) {
    forall k :: 0 <= k < |ts| ==> Sound(ts[k])
  }

  function TagWords(t: Tag): seq<nat> {
    [t.typ, t.size] + t.body
  }

  function Encode(ts: seq<Tag>): seq<nat> {
    if ts == [] then [0, 8] else TagWords(ts[0]) + Encode(ts[1..])
  }

  /** The table with its own size and reserved word. */
  function Table(ts: seq<Tag>): seq<nat> {
    [4 * (2 + |Encode(ts)|), 0] + Encode(ts)
  }

  /** Where the first tag of a type starts, in words from the first tag. */
  function Position(ts: seq<Tag>, typ: nat): (p: Option<nat>)
    ensures p.Some? ==> p.value <= |Encode(ts)|
  {
    if ts == [] then None
    else if ts[0].typ == typ then Some(0)
    else
      match Position(ts[1..], typ)
      case None => None
      case Some(p) => Some(|TagWords(ts[0])| + p)
  }

  lemma {:induction false} EncodedEnd(ts: seq<Tag>)
    ensures |Encode(ts)| >= 2 && Encode(ts)[|Encode(ts)| - 2..] == [0, 8]
  {
    if ts != [] {
      EncodedEnd(ts[1..]);
    }
  }

  /** mb2_table_load's checks pass for every table. */
  lemma TableIsAccepted(ts: seq<Tag>)
    ensures Accepted(Table(ts))
  {
    EncodedEnd(ts);
    var t := Table(ts);
    assert t[|t| - 2..] == [0, 8];
    assert t[|t| - 2] == 0 && t[|t| - 1] == 8;
  }

  /** The position found is that of a tag of the type, and no earlier tag has it. */
  lemma {:induction false} PositionIsFirst(ts: seq<Tag>, typ: nat) returns (k: nat)
    ensures Position(ts, typ).None? ==> forall j :: 0 <= j < |ts| ==> ts[j].typ != typ
    ensures Position(ts, typ).Some? ==>
              && k < |ts| && ts[k].typ == typ && (forall j :: 0 <= j < k ==> ts[j].typ != typ)
              && Encode(ts)[Position(ts, typ).value..] == Encode(ts[k..])
  {
    k := 0;
    if ts != [] && ts[0].typ != typ {
      var rest := ts[1..];
      k := PositionIsFirst(rest, typ);
      assert forall j :: 0 < j < |ts| ==> ts[j] == rest[j - 1];
      if Position(rest, typ).Some? {
        assert rest[k..] == ts[k + 1..];
        assert Encode(ts)[|TagWords(ts[0])| + Position(rest, typ).value..] == Encode(rest)[Position(rest, typ).value..];
        k := k + 1;
      }
    } else if ts != [] {
      assert Encode(ts)[0..] == Encode(ts) && ts[0..] == ts;
    }
  }

  /** The fields mb2_table_load looks at lie inside the table. */
  predicate Readable(table: seq<nat>) {
    && |table| >= 2
    && (table[0] != 0 && table[1] == 0 ==> table[0] % 4 == 0 && 8 <= table[0] <= 4 * |table|)
  }

  predicate Accepted(table: seq<nat>) {
    && Readable(table) && table[0] != 0 && table[1] == 0
    && table[table[0] / 4 - 2] == 0 && table[table[0] / 4 - 1] == 8
  }

  /** MB2TAB and the functions that set and search it. */
  class Firmware {
    var table: Option<seq<nat>>

    constructor ()
      ensures table == None
    {
      table := None;
    }

    /** mb2_table_load: only the first valid table is taken. */
    method Load(words: seq<nat>) returns (ret: int)
      requires Readable(words)
      modifies this
      ensures ret == 0 || ret == -1
      ensures ret == 0 <==> old(table) == None && Accepted(words)
      ensures table == if ret == 0 then Some(words) else old(table)
    {
      if table != None {
        return -1;
      }
      if words[0] == 0 || words[1] != 0 {
        return -1;
      }
      var last := words[0] / 4 - 2;
      if words[last] != 0 || words[last + 1] != 8 {
        return -1;
      }
      table := Some(words);
      return 0;
    }

    /** mb2_get_tag: the word where the first tag of the type starts, NULL when there is none. */
    method GetTag(typ: nat, ghost ts: seq<Tag>) returns (r: Option<nat>)
      requires table.Some? ==> table.value == Table(ts) && AllSound(ts)
      ensures table == None ==> r == None
      ensures table.Some? ==> r == match Position(ts, typ) case None => None case Some(p) => Some(2 + p)
    {
      if table == None {
        return None;
      }
      var words := table.value;
      var at := 2;
      ghost var left := ts;
      TableTail(ts);
      EncodedEnd(ts);
      hide Encode, Table, TagWords;
      while words[at] != 0
        invariant 2 <= at <= |words| && words[at..] == Encode(left) && AllSound(left)
        invariant at < |words|
        invariant Later(at - 2, Position(left, typ)) == Position(ts, typ)
        decreases |left|
      {
        EncodedStart(left, words[at..]);
        assert words[at..][1] == words[at + 1];
        if words[at] == typ {
          return Some(at);
        }
        Skipped(left, words[at..]);
        assert words[at..][Padded(left[0].size)..] == words[at + Padded(left[0].size)..];
        at := at + Padded(words[at + 1]);
        left := left[1..];
        EncodedEnd(left);
      }
      EncodedStart(left, words[at..]);
      return None;
    }
  }

  function Later(skip: int, p: Option<nat>): Option<int> {
    match p
    case None => None
    case Some(v) => Some(skip + v)
  }

  lemma TableTail(ts: seq<Tag>)
    ensures |Table(ts)| == 2 + |Encode(ts)| && Table(ts)[2..] == Encode(ts)
  {
  }

  lemma EncodedStart(ts: seq<Tag>, words: seq<nat>)
    requires AllSound(ts) && words == Encode(ts)
    ensures |words| >= 2 && (words[0] == 0 <==> ts == [])
    ensures ts != [] ==> words[0] == ts[0].typ && words[1] == ts[0].size
  {
  }

  /** Stepping over a tag by its rounded size reaches the next one. */
  lemma Skipped(ts: seq<Tag>, words: seq<nat>)
    requires AllSound(ts) && ts != [] && words == Encode(ts)
    ensures Padded(ts[0].size) <= |words| && words[Padded(ts[0].size)..] == Encode(ts[1..])
    ensures AllSound(ts[1..]) && |TagWords(ts[0])| == Padded(ts[0].size)
  {
  }
}
