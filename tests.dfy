/** The repository's two unit tests, can_build and can_clone, as verified
    scenarios.  A test's scan `(0..n).filter(check).collect()` is the method
    Scan. */
module FSBitmapTests {
  import Storage
  import FSBitmap

  /** Strictly increasing, hence sorted and free of repeats. */
  ghost predicate Increasing(s: seq<nat>) {
    forall i, j :: 0 <= i < j < |s| ==> s[i] < s[j]
  }

  /** A strictly increasing sequence is determined by its elements. */
  lemma {:induction false} IncreasingUnique(a: seq<nat>, b: seq<nat>)
    requires Increasing(a) && Increasing(b)
    requires forall x :: x in a <==> x in b
    ensures a == b
  {
    assert a != [] ==> a[0] in b;
    assert b != [] ==> b[0] in a;
    if a != [] && b != [] {
      assert a[0] == b[0];
      forall x
        ensures x in a[1..] <==> x in b[1..]
      {
        if x in a[1..] {
          var i :| 1 <= i < |a| && a[i] == x;
          assert x in b;
        }
        if x in b[1..] {
          var i :| 1 <= i < |b| && b[i] == x;
          assert x in a;
        }
      }
      IncreasingUnique(a[1..], b[1..]);
    }
  }

  /** The set positions below n, in increasing order. */
  method Scan(m: FSBitmap.Bitmap, n: nat) returns (res: seq<nat>)
    requires m.Valid()
    ensures Increasing(res)
    ensures forall x: nat :: x in res <==> x < n && m.Check(x)
  {
    res := [];
    var i := 0;
    while i < n
      invariant i <= n
      invariant Increasing(res)
      invariant forall k :: 0 <= k < |res| ==> res[k] < i
      invariant forall x: nat :: x in res <==> x < i && m.Check(x)
    {
      if m.Check(i) {
        res := res + [i];
      }
      i := i + 1;
    }
  }

  const Sample: seq<nat> := [23, 41, 63, 64, 65, 79]

  /** The bitmap both tests build: new(127), then mark 41, 23, 79, 63, 65
      and 64. */
  method BuildSample() returns (m: FSBitmap.Bitmap)
    ensures fresh(m) && fresh(m.cells) && m.Valid() && m.capacity == 127
    ensures forall q: nat :: m.Check(q) <==> q in Sample
  {
    m := new FSBitmap.Bitmap(127);
    m.Mark(41);
    m.Mark(23);
    m.Mark(79);
    m.Mark(63);
    m.Mark(65);
    m.Mark(64);
  }

  /** can_build: scanning positions 0..127 yields the sample, sorted. */
  method CanBuild() returns (res: seq<nat>)
    ensures res == Sample
  {
    var m := BuildSample();
    res := Scan(m, 127);
    IncreasingUnique(res, Sample);
  }

  /** can_clone: the clone scans like the original; unmarking 79 in the
      clone removes it from the clone's scan and leaves the original's as
      it was. */
  method CanClone() returns (before: seq<nat>, cloneBefore: seq<nat>, after: seq<nat>, cloneAfter: seq<nat>)
    ensures before == cloneBefore == after == Sample
    ensures cloneAfter == [23, 41, 63, 64, 65]
  {
    var m := BuildSample();
    var c := m.Clone();
    before := Scan(m, 127);
    IncreasingUnique(before, Sample);
    cloneBefore := Scan(c, 127);
    IncreasingUnique(cloneBefore, Sample);
    // 79 is the only set position of its cell, so the wide mask of Unmark
    // clears nothing else.
    ghost var cells := c.Cells();
    forall q: nat | 72 <= q < 79
      ensures !Storage.Bit(cells, q)
    {
      assert !c.Check(q);
    }
    Storage.UnmarkIsClear(cells, 79);
    c.Unmark(79);
    assert c.Cells() == Storage.Clear(cells, 79);
    after := Scan(m, 127);
    IncreasingUnique(after, Sample);
    cloneAfter := Scan(c, 127);
    IncreasingUnique(cloneAfter, [23, 41, 63, 64, 65]);
  }
}
