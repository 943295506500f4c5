/**
 * The uniform grid of the spatial index (Fluid/src/NearestNeighborSearch/segments.hpp
 * and segments.cpp): cell addressing, the 3x3 neighbourhood, and the layout of the
 * bucket lists.
 */
module Segments {
  import opened Settings
  import opened MinMath
  import opened Arena

  /** 2^32: unsigned arithmetic is arithmetic modulo U32. */
  const U32: int := 0x1_0000_0000

  /** The value of an integer expression once it is stored in an `unsigned`. */
  function ToUnsigned(v: int): (u: nat)
    ensures u < U32
    ensures -U32 <= v < 0 ==> u == v + U32
    ensures 0 <= v < U32 ==> u == v
    ensures U32 <= v < 2 * U32 ==> u == v - U32
  {
    v % U32
  }

  /** The value of an `unsigned` once it is stored in an `int` (two's complement). */
  function ToSigned(u: nat): (v: int)
    requires u < U32
    ensures -0x8000_0000 <= v < 0x8000_0000 && ToUnsigned(v) == u
    ensures u < 0x8000_0000 ==> v == u
  {
    if u < 0x8000_0000 then u else u - U32
  }

  /** Conversion of a float to an integer type: rounds toward zero. */
  function Trunc(d: real): (r: int)
  {
    if d >= 0.0 then d.Floor else -((-d).Floor)
  }

  /**
   * staticCeil: truncates d into an `unsigned` and adds one. The conversion is defined
   * only when the truncated value is representable, hence the lower bound; the upper
   * bound keeps the increment from wrapping.
   */
  function StaticCeil(d: real): (r: nat)
    requires -1.0 < d < (U32 - 1) as real
    ensures r < U32
    ensures d >= 0.0 ==> (r - 1) as real <= d < r as real
    ensures d < 0.0 ==> r == 1
  {
    Trunc(d) + 1
  }

  /** On a whole number staticCeil is one more than the true ceiling. */
  lemma StaticCeilOfWholeNumber(n: nat)
    requires n < U32 - 1
    ensures StaticCeil(n as real) == n + 1
  {
  }

  /** Grid dimensions: one cell more than fits in the box along each axis. */
  const CellsX: nat := StaticCeil(BoxWidth as real * 1.0 / Area)
  const CellsY: nat := StaticCeil(BoxHeight as real * 1.0 / Area)
  const CellsSize: nat := CellsX * CellsY

  /**
   * The grid dimensions as numbers. CellsX and CellsY are defined through StaticCeil,
   * so a proof that needs their values (a literal cell id below CellsSize, say) calls
   * this lemma first; without it the verifier is left with nonlinear arithmetic.
   */
  lemma GridDimensions()
    ensures CellsX == 26 && CellsY == 13 && CellsSize == 338
  {
  }

  /** The walls of the simulation box. */
  const XMin: real := BoxMarginX as real
  const XMax: real := (BoxMarginX + BoxWidth) as real
  const YMin: real := BoxMarginY as real
  const YMax: real := (BoxMarginY + BoxHeight) as real

  /** The closed simulation box. */
  predicate InBox(p: Vec2)
  {
    XMin <= p.x <= XMax && YMin <= p.y <= YMax
  }

  /** Grid column and row of a position (the locals x and y of GetSegmentIndex). */
  function Column(p: Vec2): (r: int)
  {
    ((p.x - BoxMarginX as real) * Scale / Area).Floor
  }

  function Row(p: Vec2): (r: int)
  {
    ((p.y - BoxMarginY as real) * Scale / Area).Floor
  }

  /**
   * GetSegmentIndex: the row-major id of the grid cell holding a position. Every point
   * of the closed box, its far edges included, maps to a valid cell.
   */
  function GetSegmentIndex(p: Vec2): (r: int)
    ensures InBox(p) ==> 0 <= r < CellsSize
  {
    GridDimensions();
    SegmentIndexDecomposes(p);
    Row(p) * CellsX + Column(p)
  }

  /**
   * For an in-box position the column is below cells_x and the row below cells_y, so the
   * cell id decomposes into the column (remainder by cells_x) and the row (quotient).
   */
  lemma SegmentIndexDecomposes(p: Vec2)
    ensures InBox(p) ==> 0 <= Column(p) < CellsX && 0 <= Row(p) < CellsY
    ensures InBox(p) ==> (Row(p) * CellsX + Column(p)) % CellsX == Column(p)
    ensures InBox(p) ==> (Row(p) * CellsX + Column(p)) / CellsX == Row(p)
  {
    GridDimensions();
  }

  /** Two in-box positions share a cell id exactly when they share column and row. */
  lemma SegmentIndexInjective(p: Vec2, q: Vec2)
    requires InBox(p) && InBox(q)
    ensures GetSegmentIndex(p) == GetSegmentIndex(q) <==> Column(p) == Column(q) && Row(p) == Row(q)
  {
    SegmentIndexDecomposes(p);
    SegmentIndexDecomposes(q);
    var a, b := GetSegmentIndex(p), GetSegmentIndex(q);
    assert a % CellsX == Column(p) && a / CellsX == Row(p);
    assert b % CellsX == Column(q) && b / CellsX == Row(q);
  }

  /**
   * The `int ret` of GetLocationFromShift: loc + cells_x * (shift / 3 - 1) - 1 + shift % 3
   * with every operand unsigned, so each step wraps modulo 2^32, then stored in an int.
   */
  function ShiftedLocation(loc: nat, shift: nat): (r: int)
    requires loc < U32 && shift < U32
  {
    var rowOffset := ToUnsigned(CellsX * ToUnsigned(shift / 3 - 1));
    var u := ToUnsigned(ToUnsigned(ToUnsigned(loc + rowOffset) - 1) + shift % 3);
    ToSigned(u)
  }

  /**
   * GetLocationFromShift: the cell at position `shift` (0..8, row by row) of the 3x3 block
   * around `loc`, or -1 for "no cell". The comparison with cellsSize converts ret back to
   * unsigned, so a negative ret is rejected as well.
   */
  function GetLocationFromShift(loc: nat, shift: nat): (r: int)
    requires loc < U32 && shift < U32
    ensures r == -1 || 0 <= r < CellsSize
  {
    GridDimensions();
    var ret := ShiftedLocation(loc, shift);
    if ToUnsigned(ret) >= CellsSize then -1 else ret
  }

  /** The offset of neighbour `shift` from the centre cell, as plain integers. */
  function NeighbourOffset(shift: nat): (r: int)
  {
    CellsX * (shift / 3 - 1) + (shift % 3 - 1)
  }

  lemma ShiftedLocationIsOffset(loc: nat, shift: nat)
    requires loc < CellsSize && shift < 9
    ensures ShiftedLocation(loc, shift) == loc + NeighbourOffset(shift)
  {
    GridDimensions();
    var m := loc + NeighbourOffset(shift);
    var rowOffset := ToUnsigned(CellsX * ToUnsigned(shift / 3 - 1));
    if shift < 3 {
      assert ToUnsigned(shift / 3 - 1) == U32 - 1;
      assert CellsX * (U32 - 1) == 25 * U32 + (U32 - 26);
      assert rowOffset == U32 - 26;
    } else if shift < 6 {
      assert rowOffset == 0;
    } else {
      assert rowOffset == CellsX;
    }
    var a: int := ToUnsigned(loc + rowOffset);
    assert a == ToUnsigned(loc + CellsX * (shift / 3 - 1));
    var b: int := ToUnsigned(a - 1);
    assert b == ToUnsigned(loc + CellsX * (shift / 3 - 1) - 1);
    var u := ToUnsigned(b + shift % 3);
    assert u == ToUnsigned(m);
  }

  /**
   * The neighbourhood query: for the nine shifts, the cell loc + offset when that is a
   * valid id, and -1 otherwise (negative ids included).
   */
  lemma LocationFromShiftIsNeighbour(loc: nat, shift: nat)
    requires loc < CellsSize && shift < 9
    ensures var m := loc + NeighbourOffset(shift);
      GetLocationFromShift(loc, shift) == if 0 <= m < CellsSize then m else -1
  {
    ShiftedLocationIsOffset(loc, shift);
  }

  /** A negative neighbour id survives the store into `int`; only the unsigned comparison rejects it. */
  lemma NegativeNeighbourRejectedByUnsignedCompare(loc: nat, shift: nat)
    requires loc < CellsSize && shift < 9
    requires loc + NeighbourOffset(shift) < 0
    ensures ShiftedLocation(loc, shift) < 0
    ensures ToUnsigned(ShiftedLocation(loc, shift)) >= CellsSize
    ensures GetLocationFromShift(loc, shift) == -1
  {
    ShiftedLocationIsOffset(loc, shift);
    GridDimensions();
    var m := loc + NeighbourOffset(shift);
    assert -27 <= m;
    assert ToUnsigned(m) == m + U32;
  }

  /** Shift 4 is the centre cell itself. */
  lemma LocationFromShiftCentre(loc: nat)
    requires loc < CellsSize
    ensures GetLocationFromShift(loc, 4) == loc
  {
    LocationFromShiftIsNeighbour(loc, 4);
  }

  /**
   * Column wrap is not detected: the left neighbour of a cell in column 0 is the last
   * column of the row below, not "no cell".
   */
  lemma ColumnWrapNotDetected(loc: nat)
    requires 0 < loc < CellsSize && loc % CellsX == 0
    ensures GetLocationFromShift(loc, 3) == loc - 1
    ensures (loc - 1) % CellsX == CellsX - 1 && (loc - 1) / CellsX == loc / CellsX - 1
  {
    LocationFromShiftIsNeighbour(loc, 3);
    GridDimensions();
  }

  /** The neighbourhood of the corner cell 0: the row below and the left neighbour are missing. */
  lemma CornerCellNeighbourhood()
    ensures forall s | 0 <= s < 4 :: GetLocationFromShift(0, s) == -1
    ensures GetLocationFromShift(0, 4) == 0 && GetLocationFromShift(0, 5) == 1
    ensures GetLocationFromShift(0, 6) == CellsX - 1
    ensures GetLocationFromShift(0, 7) == CellsX && GetLocationFromShift(0, 8) == CellsX + 1
  {
    GridDimensions();
    forall s | 0 <= s < 9 ensures GetLocationFromShift(0, s) == if s < 4 then -1 else NeighbourOffset(s) {
      LocationFromShiftIsNeighbour(0, s);
    }
  }

  /** Node x carries its own index as value when it is in a bucket, and the default -1 otherwise. */
  ghost predicate Tagged(value: seq<int>, bucketOf: seq<int>)
  {
    && |value| == |bucketOf|
    && forall x | 0 <= x < |value| :: value[x] == if bucketOf[x] == Null then Null else x
  }

  /** The arena of a List together with its node values: the buckets are well formed and every node is tagged. */
  ghost predicate WellFormed(l: Links, y: Layout, value: seq<int>)
  {
    match y
    case Layout(_, bucketOf, _) =>
      Consistent(l, y, ParticlesNumber, CellsSize) && Tagged(value, bucketOf)
  }

  /** Placing node i, which was in no bucket, into a bucket keeps the tags right once its value is i. */
  lemma TaggedPlace(value: seq<int>, bucketOf: seq<int>, i: int, b: int)
    requires Tagged(value, bucketOf) && 0 <= i < |value| && b != Null
    ensures Tagged(value[i := i], bucketOf[i := b])
  {
  }

  /** Moving a placed node to another bucket keeps the tags right. */
  lemma TaggedMove(value: seq<int>, bucketOf: seq<int>, i: int, b: int)
    requires Tagged(value, bucketOf) && 0 <= i < |value| && bucketOf[i] != Null && b != Null
    ensures Tagged(value, bucketOf[i := b])
  {
  }

  /**
   * struct List: the node arena `indices` (split into its value, next and prev fields,
   * with handles for pointers) and the bucket heads `segments`, one per grid cell.
   * The ghost layout records what the lists spell out.
   */
  class List {
    const value: array<int>
    const next: array<int>
    const prev: array<int>
    const segments: array<int>
    ghost var layout: Layout

    /** The link fields as values. */
    ghost function Handles(): (r: Links)
      reads this, next, prev, segments
    {
      Links(next[..], prev[..], segments[..])
    }

    /**
     * The arena is well formed, and a node in some bucket carries its own index as
     * value, while a node in no bucket still has the default value.
     */
    ghost predicate Valid()
      reads this, value, next, prev, segments
    {
      && value.Length == ParticlesNumber && next.Length == ParticlesNumber
      && prev.Length == ParticlesNumber && segments.Length == CellsSize
      && value != next && value != prev && value != segments
      && next != prev && next != segments && prev != segments
      && WellFormed(Handles(), layout, value[..])
    }

    /** The default List: PARTICLES_NUMBER default nodes and cellsSize null heads. */
    constructor ()
      ensures Valid()
      ensures fresh(value) && fresh(next) && fresh(prev) && fresh(segments)
      ensures value.Length == ParticlesNumber && segments.Length == CellsSize
      ensures forall x | 0 <= x < ParticlesNumber :: value[x] == Null && next[x] == Null && prev[x] == Null
      ensures forall b | 0 <= b < CellsSize :: segments[b] == Null
      ensures layout == EmptyLayout(ParticlesNumber, CellsSize)
    {
      value := new int[ParticlesNumber](_ => Null);
      next := new int[ParticlesNumber](_ => Null);
      prev := new int[ParticlesNumber](_ => Null);
      segments := new int[CellsSize](_ => Null);
      layout := EmptyLayout(ParticlesNumber, CellsSize);
      new;
      EmptyIsConsistent(ParticlesNumber, CellsSize);
      assert Handles() == EmptyLinks(ParticlesNumber, CellsSize);
    }
  }
}
