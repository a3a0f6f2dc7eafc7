/** Vocabulary shared by the models. */
module Common {

  datatype Option<+T> = None | Some(value: T)

  /** Which text of a function is meant: the source exactly as it stands, or the source
      with the lines that contradict its own comments and callers put right.  README.md
      lists those lines. */
  datatype Revision = AsWritten | Documented

  function Max(a: int, b: int): int {
    if a >= b then a else b
  }

  function Min(a: int, b: int): int {
    if a <= b then a else b
  }

  const PAGE_SIZE := 4096

  /** PAGE_ALGN_DOWN and PAGE_ALGN_UP on unbounded naturals. */
  function AlignDown(x: nat): nat {
    x / PAGE_SIZE * PAGE_SIZE
  }

  function AlignUp(x: nat): nat {
    (x + (PAGE_SIZE - 1)) / PAGE_SIZE * PAGE_SIZE
  }

  /** PADDR_ALGN_MASK keeps bits 12 to 55. */
  const PADDR_LIMIT := 0x100_0000_0000_0000

  /** !(x & ~PADDR_ALGN_MASK) */
  predicate PageAligned(x: nat) {
    x % PAGE_SIZE == 0 && x < PADDR_LIMIT
  }

  /** It holds of the first bytes of the 2^44 pages below 2^56 and of no other address. */
  lemma PageAlignedExactly(page: nat, offset: nat)
    requires offset < 4096
    ensures PageAligned(4096 * page + offset) <==> offset == 0 && page < 0x1000_0000_0000
  {
  }

  // ----- sets -----

  /** A subset is as large as the whole only if it is the whole. */
  lemma SameSize(a: set<nat>, b: set<nat>)
    requires a <= b
    ensures |a| == |b| <==> a == b
  {
    assert b == a + (b - a) && |a + (b - a)| == |a| + |b - a|;
  }

  // ----- division -----

  /** Quotient and remainder are the only ones that fit. */
  lemma DivMod(x: int, y: int, q: int, r: int)
    requires x == y * q + r && 0 <= r < y
    ensures x / y == q && x % y == r
  {
    var d := q - x / y;
    assert x == y * (x / y) + x % y;
    assert y * d == x % y - r;
    if d >= 1 {
      MulMono(1, d, y);
    } else if d <= -1 {
      MulMono(1, -d, y);
    }
  }

  lemma MulMono(a: int, b: int, y: int)
    requires a <= b && y >= 0
    ensures a * y <= b * y
  {
  }
}
