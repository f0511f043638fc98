/** The byte-level arithmetic behind FSBitmap: a bitmap's storage is a
    sequence of 8-bit cells, and position p lives in bit p % 8 (bit 0 being
    the least significant) of cell p / 8.  Everything here is pure; the class
    in module FSBitmap updates an array in place and is specified by these
    functions. */
module Storage {

  /** Number of cells a bitmap of b positions allocates: b / 8, plus one
      when b is not a multiple of 8. */
  function CellCount(b: nat): (n: nat)
    ensures 8 * n - 8 < b <= 8 * n
    ensures n == (b + 7) / 8
  {
    b / 8 + if b % 8 == 0 then 0 else 1
  }

  /** Splits a position into its cell index and its bit offset. */
  function Index(p: nat): (r: (nat, nat))
    ensures r.1 < 8 && p == 8 * r.0 + r.1
  {
    (p / 8, p % 8)
  }

  /** Bit j of cell c, read the documented way: shift right, mask with 1. */
  predicate BitOf(c: bv8, j: nat)
    requires j < 8
  {
    (c >> j) & 1 == 1
  }

  /** Whether position p is physically set in storage s; a position whose
      cell does not exist reads as unset. */
  predicate Bit(s: seq<bv8>, p: nat) {
    p / 8 < |s| && BitOf(s[p / 8], p % 8)
  }

  /** Two cells with the same eight bits are the same cell. */
  lemma CellsEqual(a: bv8, b: bv8)
    requires forall j :: 0 <= j < 8 ==> BitOf(a, j) == BitOf(b, j)
    ensures a == b
  {
    assert BitOf(a, 0) == BitOf(b, 0) && BitOf(a, 1) == BitOf(b, 1);
    assert BitOf(a, 2) == BitOf(b, 2) && BitOf(a, 3) == BitOf(b, 3);
    assert BitOf(a, 4) == BitOf(b, 4) && BitOf(a, 5) == BitOf(b, 5);
    assert BitOf(a, 6) == BitOf(b, 6) && BitOf(a, 7) == BitOf(b, 7);
  }

  /** Storage is determined by its length and the positions it has set. */
  lemma Extensional(s: seq<bv8>, t: seq<bv8>)
    requires |s| == |t|
    requires forall q: nat :: Bit(s, q) == Bit(t, q)
    ensures s == t
  {
    forall i | 0 <= i < |s|
      ensures s[i] == t[i]
    {
      forall j | 0 <= j < 8
        ensures BitOf(s[i], j) == BitOf(t[i], j)
      {
        var q := 8 * i + j;
        assert q / 8 == i && q % 8 == j;
        assert Bit(s, q) == Bit(t, q);
      }
      CellsEqual(s[i], t[i]);
    }
  }

  /** Freshly allocated storage of n cells: every position unset. */
  function Zeros(n: nat): (s: seq<bv8>)
    ensures |s| == n
    ensures forall q: nat :: !Bit(s, q)
  {
    seq(n, _ => 0)
  }

  // ---------------------------------------------------------------------
  // Cell updates, with the masks exactly as the source builds them.

  /** `cell |= 1 << k` */
  function MarkCell(c: bv8, k: nat): (r: bv8)
    requires k < 8
    ensures forall j :: 0 <= j < 8 ==> BitOf(r, j) == (j == k || BitOf(c, j))
  {
    c | (1 << k)
  }

  /** `cell &= !1 << k`: the complement is taken of 1, not of the shifted
      mask, so the mask is 0xFE << k cut to eight bits, which has bits
      0..k clear and bits k+1..7 set. */
  function UnmarkCell(c: bv8, k: nat): (r: bv8)
    requires k < 8
    ensures forall j :: 0 <= j < 8 ==> BitOf(r, j) == (j > k && BitOf(c, j))
  {
    c & ((!1) << k)
  }

  /** `cell ^= 1 << k` */
  function FlipCell(c: bv8, k: nat): (r: bv8)
    requires k < 8
    ensures forall j :: 0 <= j < 8 ==> BitOf(r, j) == (BitOf(c, j) != (j == k))
  {
    c ^ (1 << k)
  }

  /** The evidently intended clear, `cell &= !(1 << k)`. */
  function ClearCell(c: bv8, k: nat): (r: bv8)
    requires k < 8
    ensures forall j :: 0 <= j < 8 ==> BitOf(r, j) == (j != k && BitOf(c, j))
  {
    c & !(1 << (k as bv8))
  }

  // ---------------------------------------------------------------------
  // Storage updates at a position, stated as which positions are set after.

  /** Sets position p and no other. */
  function Mark(s: seq<bv8>, p: nat): (r: seq<bv8>)
    requires p / 8 < |s|
    ensures |r| == |s|
    ensures forall q: nat :: Bit(r, q) == (q == p || Bit(s, q))
  {
    var (cell, k) := Index(p);
    s[cell := MarkCell(s[cell], k)]
  }

  /** Clears every position from the start of p's cell up to and including
      p, and nothing else. */
  function Unmark(s: seq<bv8>, p: nat): (r: seq<bv8>)
    requires p / 8 < |s|
    ensures |r| == |s|
    ensures forall q: nat :: Bit(r, q) == (Bit(s, q) && !(8 * (p / 8) <= q <= p))
  {
    var (cell, k) := Index(p);
    s[cell := UnmarkCell(s[cell], k)]
  }

  /** Toggles position p and no other. */
  function Flip(s: seq<bv8>, p: nat): (r: seq<bv8>)
    requires p / 8 < |s|
    ensures |r| == |s|
    ensures forall q: nat :: Bit(r, q) == (Bit(s, q) != (q == p))
  {
    var (cell, k) := Index(p);
    s[cell := FlipCell(s[cell], k)]
  }

  /** Clears position p and no other: what Unmark is documented to do. */
  function Clear(s: seq<bv8>, p: nat): (r: seq<bv8>)
    requires p / 8 < |s|
    ensures |r| == |s|
    ensures forall q: nat :: Bit(r, q) == (Bit(s, q) && q != p)
  {
    var (cell, k) := Index(p);
    s[cell := ClearCell(s[cell], k)]
  }

  // ---------------------------------------------------------------------
  // Properties of the updates.

  /** Every position below the capacity has a cell to live in. */
  lemma PositionHasCell(b: nat, p: nat)
    requires p < b
    ensures p / 8 < CellCount(b)
  {
  }

  /** The only position at or below capacity b without a cell is b itself,
      and only when b is a multiple of 8. */
  lemma CapacityHasNoCell(b: nat, p: nat)
    ensures (p <= b && CellCount(b) <= p / 8) <==> (p == b && b % 8 == 0)
  {
  }

  /** Marking twice is marking once. */
  lemma MarkIdempotent(s: seq<bv8>, p: nat)
    requires p / 8 < |s|
    ensures Mark(Mark(s, p), p) == Mark(s, p)
  {
    Extensional(Mark(Mark(s, p), p), Mark(s, p));
  }

  /** Unmarking twice is unmarking once. */
  lemma UnmarkIdempotent(s: seq<bv8>, p: nat)
    requires p / 8 < |s|
    ensures Unmark(Unmark(s, p), p) == Unmark(s, p)
  {
    Extensional(Unmark(Unmark(s, p), p), Unmark(s, p));
  }

  /** Flipping twice restores the storage. */
  lemma FlipInvolution(s: seq<bv8>, p: nat)
    requires p / 8 < |s|
    ensures Flip(Flip(s, p), p) == s
  {
    Extensional(Flip(Flip(s, p), p), s);
  }

  /** Unmark agrees with the intended Clear exactly when none of the
      positions it clears by accident, those of p's cell below p, is set. */
  lemma UnmarkIsClear(s: seq<bv8>, p: nat)
    requires p / 8 < |s|
    ensures Unmark(s, p) == Clear(s, p) <==> forall q: nat :: 8 * (p / 8) <= q < p ==> !Bit(s, q)
  {
    if forall q: nat :: 8 * (p / 8) <= q < p ==> !Bit(s, q) {
      Extensional(Unmark(s, p), Clear(s, p));
    } else {
      var q: nat :| 8 * (p / 8) <= q < p && Bit(s, q);
      assert !Bit(Unmark(s, p), q) && Bit(Clear(s, p), q);
    }
  }

  /** The mask clears more than the one bit: after marking 8, unmarking 9
      also clears 8, which Clear leaves set. */
  lemma UnmarkClearsLowerPosition()
    ensures var s := Mark(Zeros(2), 8);
            Bit(s, 8) && !Bit(Unmark(s, 9), 8) && Bit(Clear(s, 9), 8)
  {
  }
}
