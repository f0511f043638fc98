/** FSBitmap: a fixed-capacity bitmap that owns a buffer of 8-bit cells and
    the number of positions it was built for.  Neither the buffer nor the
    capacity is ever replaced after construction; mark, unmark and flip
    update the cells in place. */
module FSBitmap {
  import Storage

  class Bitmap {
    const cells: array<bv8>
    const capacity: nat

    /** The storage holds exactly ceil(capacity / 8) cells. */
    ghost predicate Valid() {
      cells.Length == Storage.CellCount(capacity)
    }

    /** The cells as a value. */
    ghost function Cells(): seq<bv8>
      reads cells
    {
      cells[..]
    }

    /** A bitmap of b positions, all unset. */
    constructor (b: nat)
      ensures Valid() && capacity == b && fresh(cells)
      ensures Cells() == Storage.Zeros(Storage.CellCount(b))
      ensures forall p: nat :: !Check(p)
    {
      capacity := b;
      cells := new bv8[Storage.CellCount(b)](_ => 0);
    }

    /** A bitmap over a freshly allocated copy of the cells s. */
    constructor Of(s: seq<bv8>, b: nat)
      ensures capacity == b && fresh(cells) && Cells() == s
    {
      capacity := b;
      cells := new bv8[|s|](i requires 0 <= i < |s| => s[i]);
    }

    /** A deep copy: same capacity, equal cells, storage of its own. */
    method Clone() returns (c: Bitmap)
      requires Valid()
      ensures fresh(c) && fresh(c.cells)
      ensures c.Valid() && c.capacity == capacity && c.Cells() == Cells()
      ensures forall p: nat :: c.Check(p) == Check(p)
    {
      c := new Bitmap.Of(cells[..], capacity);
    }

    /** Sets position p.  The source indexes the cell unchecked, so the
        cell must exist. */
    method Mark(p: nat)
      requires Valid()
      requires p / 8 < cells.Length
      modifies cells
      ensures Cells() == Storage.Mark(old(Cells()), p)
      ensures forall q: nat :: Check(q) == (old(Check(q)) || (q == p && p < capacity))
    {
      var (cell, byte) := Storage.Index(p);
      cells[cell] := cells[cell] | (1 << byte);
    }

    /** Clears position p, but, because the mask is (!1) << (p % 8), also
        every lower position of p's cell.  Positions past the capacity are
        ignored; p == capacity passes the guard, so its cell must exist. */
    method Unmark(p: nat)
      requires Valid()
      requires p <= capacity ==> p / 8 < cells.Length
      modifies cells
      ensures Cells() == if p <= capacity then Storage.Unmark(old(Cells()), p) else old(Cells())
      ensures forall q: nat :: Check(q) == (old(Check(q)) && !(p <= capacity && 8 * (p / 8) <= q <= p))
      ensures !Check(p)
    {
      if p <= capacity {
        var (cell, byte) := Storage.Index(p);
        cells[cell] := cells[cell] & ((!1) << byte);
      }
    }

    /** Unmark as evidently intended: positions at or past the capacity are
        ignored (the same bound Check uses) and only position p is cleared. */
    method Clear(p: nat)
      requires Valid()
      modifies cells
      ensures Cells() == if p < capacity then Storage.Clear(old(Cells()), p) else old(Cells())
      ensures forall q: nat :: Check(q) == (old(Check(q)) && q != p)
    {
      if p < capacity {
        Storage.PositionHasCell(capacity, p);
        var (cell, byte) := Storage.Index(p);
        cells[cell] := cells[cell] & !(1 << (byte as bv8));
      }
    }

    /** Toggles position p; the cell must exist, as for Mark. */
    method Flip(p: nat)
      requires Valid()
      requires p / 8 < cells.Length
      modifies cells
      ensures Cells() == Storage.Flip(old(Cells()), p)
      ensures forall q: nat :: Check(q) == (old(Check(q)) != (q == p && p < capacity))
    {
      var (cell, byte) := Storage.Index(p);
      cells[cell] := cells[cell] ^ (1 << byte);
    }

    /** Whether position p is set; every position at or past the capacity
        reads as unset, and no position makes it index out of range. */
    function Check(p: nat): (b: bool)
      requires Valid()
      reads cells
      ensures p >= capacity ==> !b
      ensures b <==> p < capacity && Storage.Bit(Cells(), p)
    {
      if p >= capacity then false
      else
        Storage.PositionHasCell(capacity, p);
        var (cell, byte) := Storage.Index(p);
        var v: bv8 := 1 << byte;
        cells[cell] & v == v
    }
  }
}
