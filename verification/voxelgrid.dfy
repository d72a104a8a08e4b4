/**
 A dense 3-dimensional grid of voxels, modelled on the code as written.

 A grid stores its resolution, its voxel counts along the three axes and a
 flat sequence of voxel values. Voxels are single-precision floats in the
 original; only their ordering is used here, so they are `real`s. Every
 mutator returns a new grid value instead of updating in place, and every
 panic of the original (coordinate or index out of range, division by zero)
 is a `Panic` result.
 */
module VoxelGrid {
  import opened Utils

  /** Why an operation panicked. */
  datatype Fault = OutOfBounds | DivideByZero

  /** Either a value or the panic that stopped the operation. */
  datatype Result<T> = Ok(value: T) | Panic(fault: Fault)

  /** Voxel counts along the x, y and z axes. */
  datatype Counts = Counts(w: nat, h: nat, d: nat)

  /** Integer grid coordinates of one voxel. */
  datatype Coord = Coord(x: nat, y: nat, z: nat)

  datatype Grid = Grid(resolution: nat, counts: Counts, voxels: seq<real>)

  /** Number of voxels a grid with these counts holds. */
  function Size(c: Counts): nat
  {
    c.w * c.h * c.d
  }

  /** The invariant set up at construction: one voxel per grid cell. */
  predicate Valid(g: Grid)
  {
    |g.voxels| == Size(g.counts)
  }

  predicate InBounds(c: Counts, x: nat, y: nat, z: nat)
  {
    x < c.w && y < c.h && z < c.d
  }

  /** A grid of `w` by `h` by `d` voxels, all zero (Go zero-initialises the
      slice it allocates). */
  function New(w: nat, h: nat, d: nat, resolution: nat): (g: Grid)
    ensures Valid(g)
    ensures g.counts == Counts(w, h, d) && g.resolution == resolution
    ensures forall i :: 0 <= i < |g.voxels| ==> g.voxels[i] == 0.0
  {
    Grid(resolution, Counts(w, h, d), seq(w * h * d, _ => 0.0))
  }

  /** Row-major position of a coordinate in the voxel sequence; a
      coordinate outside the counts panics. */
  function GetIndex(g: Grid, x: nat, y: nat, z: nat): (r: Result<nat>)
    ensures r.Ok? <==> InBounds(g.counts, x, y, z)
    ensures r.Panic? ==> r.fault == OutOfBounds
    ensures r.Ok? ==> r.value < Size(g.counts)
  {
    var w, h, d := g.counts.w, g.counts.h, g.counts.d;
    if x >= w || y >= h || z >= d then
      Panic(OutOfBounds)
    else
      LinearBound(w, h, d, x, y, z);
      Ok(w * h * z + w * y + x)
  }

  /** Three digits below their bases linearise below the product of the
      bases. */
  lemma LinearBound(a: nat, b: nat, c: nat, i: nat, j: nat, k: nat)
    requires i < a && j < b && k < c
    ensures a * b * k + a * j + i < a * b * c
  {
    DigitBound(a, b, i, j);
    DigitBound(a * b, c, a * j + i, k);
  }

  /** Two digits below their bases linearise below the product of the
      bases. */
  lemma DigitBound(a: nat, b: nat, i: nat, j: nat)
    requires i < a && j < b
    ensures a * j + i < a * b
  {
    MulMonotone(a, j + 1, b);
    assert (j + 1) * a == a * j + a;
  }

  /** Decodes a flat index into a coordinate, as written: the index is
      reduced by the depth first, then the height, then the width. The guard
      lets the index equal to the voxel count through, and a zero count
      divides by zero. */
  function GetCoordinate(g: Grid, index: nat): (r: Result<Coord>)
    ensures r.Ok? <==> index <= |g.voxels| && g.counts.w > 0 && g.counts.h > 0 && g.counts.d > 0
    ensures r.Panic? && index > |g.voxels| ==> r.fault == OutOfBounds
    ensures r.Panic? && index <= |g.voxels| ==> r.fault == DivideByZero
    ensures r.Ok? ==> InBounds(g.counts, r.value.x, r.value.y, r.value.z)
  {
    if index > |g.voxels| then
      Panic(OutOfBounds)
    else if g.counts.d == 0 || g.counts.h == 0 || g.counts.w == 0 then
      Panic(DivideByZero)
    else
      var (zquo, z) := DivMod(index, g.counts.d);
      var (yquo, y) := DivMod(zquo, g.counts.h);
      Ok(Coord(yquo % g.counts.w, y, z))
  }

  /** Reads the voxel at a coordinate. Besides the coordinate check, a voxel
      sequence shorter than the counts promise panics as a slice access. */
  function Get(g: Grid, x: nat, y: nat, z: nat): (r: Result<real>)
    ensures Valid(g) ==> (r.Ok? <==> InBounds(g.counts, x, y, z))
    ensures r.Ok? ==> r.value in g.voxels
    ensures r.Panic? ==> r.fault == OutOfBounds
  {
    match GetIndex(g, x, y, z)
    case Panic(f) => Panic(f)
    case Ok(i) => if i < |g.voxels| then Ok(g.voxels[i]) else Panic(OutOfBounds)
  }

  /** Writes one voxel, without clamping. */
  function Set(g: Grid, x: nat, y: nat, z: nat, v: real): (r: Result<Grid>)
    ensures Valid(g) ==> (r.Ok? <==> InBounds(g.counts, x, y, z))
    ensures r.Ok? <==> Get(g, x, y, z).Ok?
    ensures r.Ok? ==> r.value.counts == g.counts && r.value.resolution == g.resolution
    ensures r.Ok? ==> |r.value.voxels| == |g.voxels|
    ensures r.Ok? ==> Get(r.value, x, y, z) == Ok(v)
    ensures r.Panic? ==> r.fault == OutOfBounds
  {
    match GetIndex(g, x, y, z)
    case Panic(f) => Panic(f)
    case Ok(i) =>
      if i < |g.voxels| then Ok(g.(voxels := g.voxels[i := v])) else Panic(OutOfBounds)
  }

  /** The copy as written: it keeps the counts, but leaves the resolution at
      its zero value and copies into a nil slice, so no voxel is copied. */
  function Copy(g: Grid): (r: Grid)
    ensures r.counts == g.counts
    ensures r.resolution == 0 && |r.voxels| == 0
  {
    Grid(0, g.counts, [])
  }

  function Max(a: real, b: real): real
  {
    if a > b then a else b
  }

  function Min(a: real, b: real): real
  {
    if a < b then a else b
  }

  /** The fill value clamped into [0, 1]. */
  function Clamp(v: real): (c: real)
    ensures 0.0 <= c <= 1.0
    ensures 0.0 <= v <= 1.0 ==> c == v
    ensures v < 0.0 ==> c == 0.0
    ensures v > 1.0 ==> c == 1.0
  {
    Min(1.0, Max(0.0, v))
  }

  /** Sets every voxel to the clamped value. */
  function Fill(g: Grid, v: real): (r: Grid)
    ensures r.counts == g.counts && r.resolution == g.resolution
    ensures |r.voxels| == |g.voxels|
    ensures forall i :: 0 <= i < |r.voxels| ==> r.voxels[i] == Clamp(v)
  {
    var value := Clamp(v);
    g.(voxels := seq(|g.voxels|, _ => value))
  }

  /** Binarises the grid: a voxel strictly above the tolerance becomes one,
      every other voxel becomes zero. */
  function HighPass(g: Grid, tolerance: real): (r: Grid)
    ensures r.counts == g.counts && r.resolution == g.resolution
    ensures |r.voxels| == |g.voxels|
    ensures forall i :: 0 <= i < |r.voxels| ==> r.voxels[i] == 0.0 || r.voxels[i] == 1.0
    ensures forall i :: 0 <= i < |r.voxels| ==> (r.voxels[i] == 1.0 <==> g.voxels[i] > tolerance)
  {
    g.(voxels := seq(|g.voxels|, i requires 0 <= i < |g.voxels| =>
                       if g.voxels[i] > tolerance then 1.0 else 0.0))
  }

  /** Indices of the voxels `VertexPoints` keeps: those not below one half,
      in ascending order (`SelectedSound` and `SelectedAscending` give the
      other two halves of that description). */
  function Selected(vs: seq<real>): (r: seq<nat>)
    ensures forall i :: 0 <= i < |vs| && vs[i] >= 0.5 ==> i in r
    decreases |vs|
  {
    if |vs| == 0 then
      []
    else
      var n := |vs| - 1;
      var front := vs[..n];
      assert forall i :: 0 <= i < n ==> front[i] == vs[i];
      Selected(front) + (if vs[n] < 0.5 then [] else [n])
  }

  /** Grid coordinates of every voxel not below one half, in index order.
      The division of each coordinate by the resolution is left out. */
  method VertexPoints(g: Grid) returns (r: Result<seq<Coord>>)
    ensures Valid(g) ==> r.Ok?
    ensures r.Ok? ==> |r.value| == |Selected(g.voxels)|
    ensures r.Ok? ==> forall k :: 0 <= k < |r.value| ==>
                        GetCoordinate(g, Selected(g.voxels)[k]) == Ok(r.value[k])
    ensures r.Panic? ==> exists k :: 0 <= k < |Selected(g.voxels)| &&
                           GetCoordinate(g, Selected(g.voxels)[k]).Panic?
  {
    var points: seq<Coord> := [];
    ghost var kept: seq<nat> := [];
    var i := 0;
    while i < |g.voxels|
      invariant 0 <= i <= |g.voxels|
      invariant kept == Selected(g.voxels[..i])
      invariant |points| == |kept|
      invariant forall k :: 0 <= k < |points| ==> GetCoordinate(g, kept[k]) == Ok(points[k])
    {
      SelectedStep(g.voxels, i);
      if !(g.voxels[i] < 0.5) {
        var c := GetCoordinate(g, i);
        if c.Panic? {
          DecodableWhenValid(g, i);
          return Panic(c.fault);
        }
        DecodedAppend(g, kept, points, i, c.value);
        points := points + [c.value];
        kept := kept + [i];
      }
      i := i + 1;
    }
    assert g.voxels[..i] == g.voxels;
    return Ok(points);
  }

  /** Appending a decoded index and its coordinate keeps the two sequences
      in step. */
  lemma DecodedAppend(g: Grid, kept: seq<nat>, points: seq<Coord>, i: nat, c: Coord)
    requires |points| == |kept|
    requires forall k :: 0 <= k < |points| ==> GetCoordinate(g, kept[k]) == Ok(points[k])
    requires GetCoordinate(g, i) == Ok(c)
    ensures forall k :: 0 <= k < |points| + 1 ==>
              GetCoordinate(g, (kept + [i])[k]) == Ok((points + [c])[k])
  {
  }

  /** Only indices of voxels not below one half are selected. */
  lemma {:induction false} SelectedSound(vs: seq<real>)
    ensures forall k :: 0 <= k < |Selected(vs)| ==>
              Selected(vs)[k] < |vs| && vs[Selected(vs)[k]] >= 0.5
    decreases |vs|
  {
    if |vs| > 0 {
      var n := |vs| - 1;
      var front := vs[..n];
      SelectedSound(front);
      assert Selected(vs) == Selected(front) + (if vs[n] < 0.5 then [] else [n]);
      forall k | 0 <= k < |Selected(front)|
        ensures vs[Selected(front)[k]] == front[Selected(front)[k]]
      {
      }
    }
  }

  /** Selected indices come in strictly ascending order. */
  lemma {:induction false} SelectedAscending(vs: seq<real>)
    ensures forall k, l :: 0 <= k < l < |Selected(vs)| ==> Selected(vs)[k] < Selected(vs)[l]
    decreases |vs|
  {
    if |vs| > 0 {
      var n := |vs| - 1;
      var front := vs[..n];
      SelectedAscending(front);
      SelectedSound(front);
      assert Selected(vs) == Selected(front) + (if vs[n] < 0.5 then [] else [n]);
    }
  }

  /** An index is selected exactly when its voxel is not below one half. */
  lemma {:induction false} SelectedExactly(vs: seq<real>, i: nat)
    ensures i in Selected(vs) <==> i < |vs| && vs[i] >= 0.5
  {
    SelectedSound(vs);
  }

  /** Extending the scanned prefix by one voxel appends its index exactly
      when that voxel is not below one half. */
  lemma SelectedStep(vs: seq<real>, i: nat)
    requires i < |vs|
    ensures Selected(vs[..i + 1]) == Selected(vs[..i]) + (if vs[i] < 0.5 then [] else [i])
  {
    assert vs[..i + 1][..i] == vs[..i];
  }

  /** Under the length invariant every index below the voxel count
      decodes; a selected index is one of those. */
  lemma DecodableWhenValid(g: Grid, i: nat)
    requires i < |g.voxels| && g.voxels[i] >= 0.5
    ensures i in Selected(g.voxels)
    ensures Valid(g) ==> GetCoordinate(g, i).Ok?
  {
  }

  /** A non-empty grid has every count positive. */
  lemma PositiveFactors(c: Counts)
    requires Size(c) > 0
    ensures c.w > 0 && c.h > 0 && c.d > 0
  {
  }

  // Properties relating several operations

  /** Distinct in-bounds coordinates have distinct indices. */
  lemma GetIndexInjective(g: Grid, x: nat, y: nat, z: nat, x': nat, y': nat, z': nat)
    requires InBounds(g.counts, x, y, z) && InBounds(g.counts, x', y', z')
    requires GetIndex(g, x, y, z) == GetIndex(g, x', y', z')
    ensures x == x' && y == y' && z == z'
  {
    LinearUnique(g.counts.w, g.counts.h, x, y, z, x', y', z');
  }

  /** The layout is row-major: the origin is at index 0, and a step along
      x, y or z moves the index by 1, by a row of `w` voxels, or by a
      layer of `w*h` voxels. */
  lemma GetIndexRowMajor(g: Grid, x: nat, y: nat, z: nat)
    requires InBounds(g.counts, x, y, z)
    ensures GetIndex(g, 0, 0, 0) == Ok(0)
    ensures x + 1 < g.counts.w ==> GetIndex(g, x + 1, y, z).value == GetIndex(g, x, y, z).value + 1
    ensures y + 1 < g.counts.h ==>
              GetIndex(g, x, y + 1, z).value == GetIndex(g, x, y, z).value + g.counts.w
    ensures z + 1 < g.counts.d ==>
              GetIndex(g, x, y, z + 1).value == GetIndex(g, x, y, z).value + g.counts.w * g.counts.h
  {
  }

  /** Digits below their bases are determined by their linearisation. */
  lemma LinearUnique(a: nat, b: nat, i: nat, j: nat, k: nat, i': nat, j': nat, k': nat)
    requires i < a && j < b && i' < a && j' < b
    requires a * b * k + a * j + i == a * b * k' + a * j' + i'
    ensures i == i' && j == j' && k == k'
  {
    var lo, lo' := a * j + i, a * j' + i';
    DigitBound(a, b, i, j);
    DigitBound(a, b, i', j');
    DigitUnique(a * b, lo, k, lo', k');
    DigitUnique(a, i, j, i', j');
  }

  /** A two-digit numeral in base `base` determines both digits. */
  lemma DigitUnique(base: nat, lo: nat, hi: nat, lo': nat, hi': nat)
    requires lo < base && lo' < base
    requires base * hi + lo == base * hi' + lo'
    ensures lo == lo' && hi == hi'
  {
    var n := base * hi + lo;
    DivModUnique(n, base, hi, lo);
    DivModUnique(n, base, hi', lo');
  }

  /** A successful write is read back at the same coordinate and leaves
      every other coordinate as it was. */
  lemma SetFrame(g: Grid, x: nat, y: nat, z: nat, v: real, x': nat, y': nat, z': nat)
    requires Set(g, x, y, z, v).Ok?
    requires InBounds(g.counts, x', y', z')
    requires (x', y', z') != (x, y, z)
    ensures Get(Set(g, x, y, z, v).value, x', y', z') == Get(g, x', y', z')
  {
    if GetIndex(g, x, y, z) == GetIndex(g, x', y', z') {
      GetIndexInjective(g, x, y, z, x', y', z');
    }
  }

  /** Writing keeps the length invariant. */
  lemma SetKeepsValid(g: Grid, x: nat, y: nat, z: nat, v: real)
    requires Valid(g) && InBounds(g.counts, x, y, z)
    ensures Set(g, x, y, z, v).Ok? && Valid(Set(g, x, y, z, v).value)
  {
  }

  /** Every in-bounds read after a fill yields the clamped value. */
  lemma FillThenGet(g: Grid, v: real, x: nat, y: nat, z: nat)
    requires Valid(g) && InBounds(g.counts, x, y, z)
    ensures Valid(Fill(g, v))
    ensures Get(Fill(g, v), x, y, z) == Ok(Clamp(v))
  {
  }

  /** Values above one fill exactly like one. */
  lemma FillAboveOne(g: Grid)
    ensures Fill(g, 1.5) == Fill(g, 1.0)
  {
  }

  /** A second fill overrides the first one entirely. */
  lemma FillTwice(g: Grid, a: real, b: real)
    ensures Fill(Fill(g, a), b) == Fill(g, b)
  {
  }

  /** Filling and binarising keep the length invariant. */
  lemma MutatorsKeepValid(g: Grid, v: real, tolerance: real)
    requires Valid(g)
    ensures Valid(Fill(g, v)) && Valid(HighPass(g, tolerance))
  {
  }

  /** A voxel equal to the tolerance falls to zero; one above it rises to
      one. */
  lemma HighPassBoundary(g: Grid, tolerance: real, i: nat)
    requires i < |g.voxels|
    ensures g.voxels[i] == tolerance ==> HighPass(g, tolerance).voxels[i] == 0.0
    ensures g.voxels[i] > tolerance ==> HighPass(g, tolerance).voxels[i] == 1.0
  {
  }

  /** Once binarised with any tolerance, a grid is unchanged by a second
      pass with a tolerance in [0, 1). */
  lemma HighPassIdempotent(g: Grid, t: real, t': real)
    requires 0.0 <= t' < 1.0
    ensures HighPass(HighPass(g, t), t') == HighPass(g, t)
  {
  }

  /** A voxel of exactly one half is selected: the comparison keeps
      `>= 0.5`, not the strictly greater values the doc-comment names. */
  lemma HalfIsSelected()
    ensures Selected([0.5]) == [0]
  {
  }
}
