/**
 Where the grid code departs from its own documentation: the index decoding
 reads the axes in the wrong order and admits one index too many, and the
 copy carries no voxels. Each departure is shown on the code as written,
 next to a corrected definition with the documented property proved.
 */
module Findings {
  import opened Utils
  import opened VoxelGrid

  // Index decoding, as written

  /** The linearisation that `GetCoordinate` actually inverts: depth varies
      fastest and width slowest, the transpose of `GetIndex`. */
  function TransposedIndex(c: Counts, x: nat, y: nat, z: nat): nat
  {
    c.d * c.h * x + c.d * y + z
  }

  /** `GetCoordinate` decodes the transposed linearisation exactly. */
  lemma GetCoordinateInvertsTransposed(g: Grid, x: nat, y: nat, z: nat)
    requires Valid(g) && InBounds(g.counts, x, y, z)
    ensures TransposedIndex(g.counts, x, y, z) < |g.voxels|
    ensures GetCoordinate(g, TransposedIndex(g.counts, x, y, z)) == Ok(Coord(x, y, z))
  {
    var w, h, d := g.counts.w, g.counts.h, g.counts.d;
    var i := TransposedIndex(g.counts, x, y, z);
    LinearBound(d, h, w, z, y, x);
    assert d * h * w == Size(g.counts);
    assert (h * x + y) * d + z == i;
    DivModUnique(i, d, h * x + y, z);
    DivModUnique(h * x + y, h, x, y);
    DivModUnique(x, w, 0, x);
    assert x % w == x;
  }

  /** Every index below the voxel count decodes, and to the coordinate
      whose transposed linearisation is that index: `GetCoordinate` is the
      inverse of `TransposedIndex` on the whole grid. */
  lemma TransposedInvertsGetCoordinate(g: Grid, i: nat)
    requires Valid(g) && i < |g.voxels|
    ensures GetCoordinate(g, i).Ok?
    ensures var c := GetCoordinate(g, i).value;
            TransposedIndex(g.counts, c.x, c.y, c.z) == i
  {
    var w, h, d := g.counts.w, g.counts.h, g.counts.d;
    PositiveFactors(g.counts);
    var (zq, z) := DivMod(i, d);
    var (yq, y) := DivMod(zq, h);
    Recompose(i, d, h, zq, z, yq, y);
    TopDigitBound(i, d * h, yq, d * y + z, w);
    DivModUnique(yq, w, 0, yq);
    assert yq % w == yq;
  }

  /** Two successive quotient/remainder steps reassemble into one
      mixed-radix numeral. */
  lemma Recompose(i: nat, a: nat, b: nat, q1: nat, r1: nat, q2: nat, r2: nat)
    requires i == q1 * a + r1 && q1 == q2 * b + r2
    ensures i == a * b * q2 + a * r2 + r1
  {
    assert q1 * a == (q2 * b + r2) * a;
  }

  /** A numeral below `unit * n` has its top digit below `n`. */
  lemma TopDigitBound(i: nat, unit: nat, top: nat, rest: nat, n: nat)
    requires i == unit * top + rest && i < unit * n
    ensures top < n
  {
    if top >= n {
      MulMonotone(unit, n, top);
      assert false;
    }
  }

  /** On a cube the decoding of an index swaps the x and z axes, so
      `GetCoordinate` undoes `GetIndex` only on the diagonal `x == z`. */
  lemma CubicGridSwapsAxes(g: Grid, x: nat, y: nat, z: nat)
    requires Valid(g) && InBounds(g.counts, x, y, z)
    requires g.counts.w == g.counts.h == g.counts.d
    ensures GetCoordinate(g, GetIndex(g, x, y, z).value) == Ok(Coord(z, y, x))
  {
    assert GetIndex(g, x, y, z).value == TransposedIndex(g.counts, z, y, x);
    GetCoordinateInvertsTransposed(g, z, y, x);
  }

  /** On a 2 x 1 x 3 grid, index 1 decodes to (0, 0, 1), which `GetIndex`
      sends to 2, while the coordinate stored at index 1 is (1, 0, 0). */
  lemma AxisOrderCounterexample()
    ensures var g := New(2, 1, 3, 1);
            && GetCoordinate(g, 1) == Ok(Coord(0, 0, 1))
            && GetIndex(g, 0, 0, 1) == Ok(2)
            && GetIndex(g, 1, 0, 0) == Ok(1)
  {
  }

  /** The guard admits the index one past the last voxel, and decodes it to
      the origin, the same coordinate as index 0. */
  lemma GuardAdmitsEnd(g: Grid)
    requires Valid(g) && Size(g.counts) > 0
    ensures GetCoordinate(g, |g.voxels|) == Ok(Coord(0, 0, 0))
    ensures GetCoordinate(g, 0) == Ok(Coord(0, 0, 0))
  {
    var w, h, d := g.counts.w, g.counts.h, g.counts.d;
    PositiveFactors(g.counts);
    assert (h * w) * d + 0 == |g.voxels|;
    DivModUnique(|g.voxels|, d, h * w, 0);
    DivModUnique(h * w, h, w, 0);
    DivModUnique(0, d, 0, 0);
    DivModUnique(0, h, 0, 0);
  }

  /** On a single-voxel grid, index 1 decodes without a fault. */
  lemma GuardCounterexample()
    ensures GetCoordinate(New(1, 1, 1, 1), 1) == Ok(Coord(0, 0, 0))
  {
  }

  // Index decoding, corrected

  /** Decodes a flat index in the order `GetIndex` encodes it: width
      fastest, then height, then depth; the index equal to the voxel count
      is rejected. */
  function CorrectedCoordinate(g: Grid, index: nat): (r: Result<Coord>)
    ensures Valid(g) ==> (r.Ok? <==> index < |g.voxels|)
    ensures r.Ok? ==> InBounds(g.counts, r.value.x, r.value.y, r.value.z)
  {
    if index >= |g.voxels| then
      Panic(OutOfBounds)
    else if g.counts.w == 0 || g.counts.h == 0 || g.counts.d == 0 then
      Panic(DivideByZero)
    else
      var (xquo, x) := DivMod(index, g.counts.w);
      var (yquo, y) := DivMod(xquo, g.counts.h);
      Ok(Coord(x, y, yquo % g.counts.d))
  }

  /** The corrected decoding undoes `GetIndex` on every in-bounds
      coordinate. */
  lemma CorrectedCoordinateInvertsGetIndex(g: Grid, x: nat, y: nat, z: nat)
    requires Valid(g) && InBounds(g.counts, x, y, z)
    ensures CorrectedCoordinate(g, GetIndex(g, x, y, z).value) == Ok(Coord(x, y, z))
  {
    var w, h := g.counts.w, g.counts.h;
    var i := GetIndex(g, x, y, z).value;
    assert (h * z + y) * w + x == i;
    DivModUnique(i, w, h * z + y, x);
    DivModUnique(h * z + y, h, z, y);
    DivModUnique(z, g.counts.d, 0, z);
    assert z % g.counts.d == z;
  }

  /** `GetIndex` undoes the corrected decoding on every valid index, so the
      two are inverse bijections between in-bounds coordinates and
      `[0, w*h*d)`. */
  lemma GetIndexInvertsCorrectedCoordinate(g: Grid, index: nat)
    requires Valid(g) && index < |g.voxels|
    ensures var c := CorrectedCoordinate(g, index).value;
            GetIndex(g, c.x, c.y, c.z) == Ok(index)
  {
    var w, h, d := g.counts.w, g.counts.h, g.counts.d;
    var (xquo, x) := DivMod(index, w);
    var (yquo, y) := DivMod(xquo, h);
    assert index == w * h * yquo + w * y + x by {
      assert index == xquo * w + x;
      assert xquo * w == (yquo * h + y) * w;
    }
    assert yquo < d by {
      if yquo >= d {
        MulMonotone(w * h, d, yquo);
        assert false;
      }
    }
    DivModUnique(yquo, d, 0, yquo);
    assert yquo % d == yquo;
  }

  // Copy, as written and corrected

  /** The copy as written holds no voxels: it breaks the length invariant
      of any non-empty grid, and every read of it panics where the original
      reads a value. */
  lemma CopyLosesContents(g: Grid, x: nat, y: nat, z: nat)
    requires Valid(g) && InBounds(g.counts, x, y, z)
    ensures !Valid(Copy(g))
    ensures Get(g, x, y, z).Ok?
    ensures Get(Copy(g), x, y, z) == Panic(OutOfBounds)
  {
  }

  /** A copy that keeps the resolution, the counts and every voxel. Grids
      are values, so changing the copy can never change the original. */
  function CorrectedCopy(g: Grid): (r: Grid)
    ensures r.resolution == g.resolution && r.counts == g.counts
    ensures Valid(g) ==> Valid(r)
    ensures forall x: nat, y: nat, z: nat :: Get(r, x, y, z) == Get(g, x, y, z)
  {
    Grid(g.resolution, g.counts, g.voxels)
  }
}
