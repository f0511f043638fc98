# FSBitmap in Dafny

A model of `FSBitmap` from the Rust crate fsbitmap-rs. The bitmap has a fixed
capacity. It owns a vector of 8-bit cells and records how many positions it
was built for. Position `p` lives in bit `p % 8` of cell `p / 8`, and bit 0 is
the least significant. The crate offers construction, a deep copy, and
single-position `mark`, `unmark`, `flip` and `check`.

The project has three modules.

- `Storage` (storage.dfy) holds the pure arithmetic. It has the cell count,
  the position split and the three cell masks exactly as the source writes
  them. It also has a position-level view, `Bit(s, p)`, of a sequence of
  `bv8` cells. Each update is specified by which positions are set
  afterwards. The lemmas cover idempotence, involution, extensionality, the
  capacity boundary and how `unmark` relates to a one-bit clear.
- `FSBitmap` (fsbitmap.dfy) holds the class `Bitmap`. It has a `const cells:
  array<bv8>` and a `const capacity: nat`; the source replaces neither after
  construction. `Mark`, `Unmark` and `Flip` update `cells` in place. Each
  one's `ensures` gives the new cells as a `Storage` function of the old cells
  and gives every `Check` result afterwards. `Check` is a function. The
  constructor and `Clone` allocate fresh arrays.
- `FSBitmapTests` (tests.dfy) holds the crate's two unit tests as verified
  scenarios. The test scan `(0..127).filter(check).collect()` becomes the
  method `Scan`.

The Rust panics on an out-of-range cell index become `requires` clauses.
Positions are `nat`, since no index arithmetic here can overflow a `usize`.

The code and its comments disagree in two places, and the model follows the
code.

- `unmark` clears more than one bit. The mask `!1 << byte` is `(!1) << byte`,
  because Rust's unary `!` binds tighter than `<<`. That is `0xFE << byte`
  cut to eight bits. So `unmark(p)` clears every position from `8 * (p / 8)`
  up to and including `p`, not just `p`.
- `unmark` can panic, despite its comment. Its guard `p <= capacity` admits
  `p == capacity`. When the capacity is a multiple of 8, that position's cell
  does not exist, and the indexing panics.

`mark` and `flip` are documented to panic outside the bitmap's original size.
In the code they panic only when the cell `p / 8` is missing. A position at
or past the capacity but inside the last cell is set or toggled silently.
`check` can never observe it.

## Model

| member | source | states |
|---|---|---|
| `Storage.CellCount` | src/lib.rs:14-20 | the cell count is ceil(b / 8): `8n - 8 < b <= 8n`, equal to `(b + 7) / 8` |
| `Storage.Index` | src/lib.rs:30-32 | the pair (cell, offset) satisfies `p == 8 * cell + offset` and `offset < 8` |
| `Storage.Zeros` | src/lib.rs:21 | a zero-filled buffer of n cells has no position set |
| `Storage.MarkCell` | src/lib.rs:40 | OR with `1 << k` sets bit k and keeps the other seven bits |
| `Storage.UnmarkCell` | src/lib.rs:47 | `c & ((!1) << k)` clears bits 0..k and keeps bits k+1..7 |
| `Storage.FlipCell` | src/lib.rs:57 | `c ^ (1 << k)` toggles bit k and keeps the other seven bits |
| `Storage.Mark` | src/lib.rs:38-41 | same length; position q is set afterwards iff q == p or q was set |
| `Storage.Unmark` | src/lib.rs:46-47 | same length; q is set afterwards iff it was set and q is outside `8*(p/8) .. p` |
| `Storage.Flip` | src/lib.rs:55-58 | same length; q is set afterwards iff it was set xor q == p |
| `Storage.CellsEqual` | src/lib.rs:9 | a cell is determined by its eight bits |
| `Storage.Extensional` | src/lib.rs:9 | storage is determined by its length and the set of positions it has set |
| `Storage.PositionHasCell` | src/lib.rs:62-68 | every position below the capacity has a cell, so `check` never indexes out of range |
| `Storage.CapacityHasNoCell` | src/lib.rs:44-47 | a position at or below b lacks a cell iff it is b itself and b is a multiple of 8 |
| `Storage.MarkIdempotent` | src/lib.rs:38-41 | marking twice is marking once |
| `Storage.UnmarkIdempotent` | src/lib.rs:44-49 | unmarking twice is unmarking once |
| `Storage.FlipInvolution` | src/lib.rs:55-58 | flipping twice restores the storage |
| `Storage.UnmarkIsClear` | src/lib.rs:47 | unmark equals a one-bit clear iff no position of p's cell below p is set |
| `Storage.UnmarkClearsLowerPosition` | src/lib.rs:47 | after mark(8), unmark(9) clears 8 as well, which a one-bit clear keeps |
| `Storage.ClearCell` | src/lib.rs:43 | the intended `c & !(1 << k)` clears exactly bit k |
| `Storage.Clear` | src/lib.rs:43 | the intended clear: q is set afterwards iff it was set and q != p |
| `FSBitmap.Bitmap.constructor` | src/lib.rs:13-22 | capacity b; fresh storage of ceil(b/8) zero cells; `check` is false everywhere |
| `FSBitmap.Bitmap.Clone` | src/lib.rs:25-27 | fresh object with fresh storage, equal capacity and cells; every `check` agrees |
| `FSBitmap.Bitmap.Mark` | src/lib.rs:34-41 | needs p's cell to exist; new cells are `Storage.Mark` of the old; check(q) afterwards is the old check(q), or q == p below capacity |
| `FSBitmap.Bitmap.Unmark` | src/lib.rs:43-49 | above capacity nothing changes; at or below it p's cell must exist; new cells are `Storage.Unmark`; check(p) is false afterwards |
| `FSBitmap.Bitmap.Flip` | src/lib.rs:51-58 | needs p's cell to exist; new cells are `Storage.Flip` of the old; check(p) toggles below capacity and nothing else changes |
| `FSBitmap.Bitmap.Check` | src/lib.rs:60-69 | false at or past the capacity for any p; below it, exactly the bit of p in the stored cells |
| `FSBitmap.Bitmap.Clear` | src/lib.rs:43-49 | the intended unmark: no precondition beyond the invariant; clears exactly p below capacity, otherwise nothing |
| `FSBitmapTests.IncreasingUnique` | src/lib.rs:79-86 | two strictly increasing sequences with the same elements are equal, so a sorted scan is fixed by the set it lists |
| `FSBitmapTests.Scan` | src/lib.rs:85 | strictly increasing; lists x iff x < n and check(x) |
| `FSBitmapTests.BuildSample` | src/lib.rs:92-97 | after new(127) and the six marks, check(q) holds iff q is one of the six |
| `FSBitmapTests.CanBuild` | src/lib.rs:76-87 | the scan over 0..127 is exactly [23, 41, 63, 64, 65, 79] |
| `FSBitmapTests.CanClone` | src/lib.rs:90-136 | original and clone both scan as the sample; after the clone's unmark(79), the clone scans without 79 and the original is unchanged |

## Left out

- The iterator and collect plumbing in `new` and in the tests is replaced by an array initialiser and by the `Scan` loop.
- Panics are not modelled as runtime events. The out-of-range cell index that would panic is a `requires` clause.
- `usize` width is not modelled. Positions are `nat`, and no index arithmetic here can overflow.
- The receiver of `clone` is `&mut self` in the source, but `clone` only reads. `Clone` is modelled as reading only.
- Memory release, `Drop`, is not modelled. There is no concurrency, I/O or foreign code in the crate.

## Findings

| source | as written | input that shows it | evidently intended | confidence | as-written member | corrected member |
|---|---|---|---|---|---|---|
| src/lib.rs:47 | mask `!1 << byte`, that is `0xFE << byte`, clears bits 0..byte of the cell | new(16), mark(8), unmark(9): position 8 is cleared too | clear only bit `byte`, with mask `!(1 << byte)` | not executed; follows from operator precedence | `Storage.UnmarkClearsLowerPosition` | `Storage.Clear` |
| src/lib.rs:45 | guard `p <= self.1` admits p == capacity | new(16), unmark(16): cell 2 of a 2-cell vector is indexed, which panics | the bound `p < self.1` that `check` uses, so that unmark never panics as its comment says | not executed | `Storage.CapacityHasNoCell` | `FSBitmap.Bitmap.Clear` |

The class keeps the source's `Unmark`, and the tests use it. The crate's
tests pass with either version. In `can_clone`, 79 is the only set position
in cell 9, so `Storage.UnmarkIsClear` shows that the two versions agree
there. `FSBitmap.Bitmap.Clear` is the corrected operation beside it. It fixes
both the mask and the bound, and needs no precondition beyond the class
invariant.
