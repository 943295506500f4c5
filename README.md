# Position-Based Fluids: the spatial index and the box walls

This project models the bookkeeping core of a 2-D position-based fluid solver. Its
particles live in a rectangular box. A uniform grid of `cells_x * cells_y` cells
(26 x 13 = 338 for the 400 x 200 box and cell side 16) speeds up the neighbour search.
Each cell heads an intrusive doubly-linked list of particle nodes.

The model covers these operations:

- **Grid addressing.** `GetSegmentIndex` gives a position's cell id.
  `GetLocationFromShift` gives the ids at the nine offsets of the 3x3 block around a
  cell, computed in wrapping unsigned 32-bit arithmetic. Out-of-range ids become -1.
  There is no column check, so at the left and right edges an offset wraps into the
  neighbouring row.
- **Bucket lists.** A `List` holds `PARTICLES_NUMBER` nodes and one head per cell, all
  null by default. `distribute` fills the buckets from scratch. `newUpdateSegment`
  relinks one particle that changed cell.
- **Box walls.** `collisionResponse` adds the wall penalty. `boundaryCondition` clamps
  a prediction into the box. `collisionHandler` does both.
- **`sort`.** A bitonic-style compare-exchange network keyed by cell id. It moves
  centres and directions together. For 500 particles it does not sort (see
  "## Left out").
- **Integer helpers** from `minmath.hpp`: `powerof2`, `pow`, `Max` and `Min`.

Modules:

- `Settings` (settings.dfy): the compile-time constants.
- `MinMath` (minmath.dfy): `Vec2` over reals, the integer helpers and `Max`/`Min`.
- `Arena` (arena.dfy): the bucket lists as values.
  - Pointers become integer handles into the node arena, with `Null` (-1) for
    `nullptr`.
  - `Links` holds the concrete `next`, `prev` and head fields.
  - `Layout` holds the abstract content: each bucket's nodes in list order, and each
    node's bucket and position.
  - `Consistent` says the links spell out the layout, no node is listed twice, and the
    entry count matches the number of placed nodes.
  - `Unlink` and `Prepend` are the two rewirings of the source. Lemmas prove both keep
    the arena consistent.
- `Segments` (segments.dfy): the grid, the unsigned arithmetic, and the `List` class.
  - `List` keeps the source's arrays (`value`, `next`, `prev`, `segments`) plus a
    ghost `layout`.
  - Its invariant `Valid` is the arena's well-formedness plus the tag rule: a placed
    node carries its own index as `value`, an unplaced one still has -1.
- `Particles` (particles.dfy): `newUpdateSegment`, `distribute`, the wall methods and
  `sort`.
  - They are methods that update the arrays in place.
  - Each is proved against a value-level function: `Move`, `Prepend`/`Added`,
    `Penalty`, `AxisClamped`, `Swap`/`Pairs`.

The source works on global arrays (`segments`, `particles.centers`, `prediction`,
`external`). The model passes them in as parameters. A by-reference `vec2& dp` becomes
an input plus a returned new value.

## Model

| member | source | states |
|---|---|---|
| Segments.StaticCeil | Fluid/src/NearestNeighborSearch/segments.hpp:6-10 | truncation to unsigned plus one: for d >= 0 the result r has r - 1 <= d < r; for -1 < d < 0 it is 1; the result fits in 32 bits |
| Segments.StaticCeilOfWholeNumber | Fluid/src/NearestNeighborSearch/segments.hpp:6-10 | on a whole number n the result is n + 1, one more than the true ceiling |
| Segments.GridDimensions | Fluid/src/NearestNeighborSearch/segments.hpp:14-17 | cells_x = 26, cells_y = 13, cellsSize = 338 for the configured box and cell side |
| Segments.GetSegmentIndex | Fluid/src/NearestNeighborSearch/segments.cpp:3-9 | every position of the closed box, far edges included, gets a cell id in [0, cellsSize) |
| Segments.SegmentIndexDecomposes | Fluid/src/NearestNeighborSearch/segments.cpp:3-9 | for an in-box position the column is below cells_x and the row below cells_y; the id is row-major: id mod cells_x is the column, id div cells_x the row |
| Segments.SegmentIndexInjective | Fluid/src/NearestNeighborSearch/segments.cpp:3-9 | two in-box positions share a cell id exactly when they share column and row |
| Segments.ToUnsigned | Fluid/src/NearestNeighborSearch/segments.cpp:12 | storing an integer in an unsigned reduces it modulo 2^32: values in [-2^32, 2^33) map as wrap-around says |
| Segments.ToSigned | Fluid/src/NearestNeighborSearch/segments.cpp:12 | storing an unsigned in an int is two's complement: the result is in the int range and converts back to the same unsigned |
| Segments.GetLocationFromShift | Fluid/src/NearestNeighborSearch/segments.cpp:10-14 | the result is -1 or a valid cell id in [0, cellsSize) |
| Segments.ShiftedLocationIsOffset | Fluid/src/NearestNeighborSearch/segments.cpp:12 | for loc < cellsSize and shift < 9, the wrapped unsigned computation of ret (the function ShiftedLocation) equals loc + cells_x * (shift / 3 - 1) + (shift % 3 - 1) computed on integers |
| Segments.LocationFromShiftIsNeighbour | Fluid/src/NearestNeighborSearch/segments.cpp:10-14 | the result is the neighbour id loc + offset when that is in [0, cellsSize), and -1 otherwise, negative ids included |
| Segments.NegativeNeighbourRejectedByUnsignedCompare | Fluid/src/NearestNeighborSearch/segments.cpp:12-13 | a negative neighbour id stays negative in the int ret; only the unsigned comparison with cellsSize turns it into -1 |
| Segments.LocationFromShiftCentre | Fluid/src/NearestNeighborSearch/segments.cpp:10-14 | shift 4 gives loc itself |
| Segments.ColumnWrapNotDetected | Fluid/src/NearestNeighborSearch/segments.cpp:10-14 | the left neighbour (shift 3) of a cell in column 0 is loc - 1, the last column of the row below, not -1 |
| Segments.CornerCellNeighbourhood | Fluid/src/NearestNeighborSearch/segments.cpp:10-14 | for cell 0, shifts 0-3 give -1; shifts 4, 5, 6, 7 and 8 give 0, 1, cells_x - 1, cells_x and cells_x + 1 |
| Segments.List.constructor | Fluid/src/NearestNeighborSearch/segments.hpp:19-29 | the default List: PARTICLES_NUMBER nodes with value -1 and null links, cellsSize null heads, every bucket empty, and the invariant Valid holds |
| Arena.EmptyIsConsistent | Fluid/src/NearestNeighborSearch/segments.hpp:19-29 | the all-null arena with empty buckets is well formed |
| Arena.DoublyLinked | Fluid/src/NearestNeighborSearch/segments.hpp:19-24 | in a well-formed arena next[a] == b exactly when prev[b] == a, for any two nodes |
| Arena.PlacedNeighbours | Fluid/src/PBF/particles.cpp:99-107 | the next and prev of a placed node are its neighbours in its bucket: null or nodes of the same bucket, distinct from it and from each other; a null prev means the node heads its bucket |
| Arena.HeadIsPlaced | Fluid/src/PBF/particles.cpp:109-116 | a bucket head is null or a node of that bucket with a null prev |
| Arena.UnlinkKeepsConsistent | Fluid/src/PBF/particles.cpp:99-107 | the function Unlink models these statements on the handles, and also clears node i's own next and prev (the source leaves them for lines 109-110 to overwrite): unlinking a placed node from its bucket (neighbours bypass it, or the head advances) leaves a well-formed arena whose layout is the old one with that node removed and the other entries in order |
| Arena.PrependKeepsConsistent | Fluid/src/PBF/particles.cpp:109-116 | the function Prepend models these statements (and particles.cpp:183-188) on the handles, except line 110's prev = nullptr, which it leaves out because node i's prev is already null (cleared by Unlink, or never set): pushing an unplaced node in front of a bucket (its next is the old head, the old head's prev is the node, the head is the node) leaves a well-formed arena whose layout has the node added in front |
| Arena.NonePlacedMeansEmpty | Fluid/src/PBF/particles.cpp:178-192 | in a well-formed arena where no node is placed, every bucket is empty |
| Arena.TotalWhenAllPlaced | Fluid/src/PBF/particles.cpp:178-192 | when every node is placed, the buckets hold exactly PARTICLES_NUMBER entries |
| Particles.MoveKeepsConsistent | Fluid/src/PBF/particles.cpp:93-119 | for the function Move (Unlink from pre, then Prepend on post, the pointer work of newUpdateSegment), a node of bucket pre can always be moved to another bucket post, and the move leaves a well-formed arena whose layout is the old one with the node taken out of pre and put in front of post |
| Particles.MoveKeepsWellFormed | Fluid/src/PBF/particles.cpp:93-119 | the same move also keeps every node's value tag right, so the List invariant survives it |
| Particles.MoveLayout | Fluid/src/PBF/particles.cpp:93-119 | after the move, bucket pre has lost exactly node i and keeps the others in order; i is put in front of post, at position 0; no other bucket and no other node's bucket changes; the total stays the same |
| Particles.MoveLinks | Fluid/src/PBF/particles.cpp:99-116 | the handles after the move: i heads post with a null prev and the old head as next, the old head's prev is i, i's old neighbours point past it or pre's head advances to i's next, and no other head changes |
| Particles.Relink | Fluid/src/PBF/particles.cpp:99-116 | the pointer statements of newUpdateSegment, on the three handle arrays, produce exactly Move of the old handles |
| Particles.NewUpdateSegment | Fluid/src/PBF/particles.cpp:93-119 | for pre == post nothing changes. Otherwise the handles become Move of the old ones, and the layout is the old one with i moved from pre to the front of post. The List stays valid; values are not touched |
| Particles.BucketsAfterStep | Fluid/src/PBF/particles.cpp:180-191 | step i of distribute pushes id i in front of the bucket of its centre's cell and changes no other bucket |
| Particles.IdsInCellMembers | Fluid/src/PBF/particles.cpp:180-191 | after n steps, bucket b holds id x exactly when x < n and x's centre is in cell b |
| Particles.IdsInCellDecreasing | Fluid/src/PBF/particles.cpp:180-191 | the ids in a bucket are strictly decreasing (latest first) |
| Particles.BucketsOfCells | Fluid/src/PBF/particles.cpp:178-192 | after all steps, each bucket holds exactly the particles whose centre is in that cell, in decreasing order |
| Particles.PushParticle | Fluid/src/PBF/particles.cpp:182-190 | one step of distribute on the List: node i, in no bucket, goes in front of bucket b with value i; the List stays valid |
| Particles.PushKeepsWellFormed | Fluid/src/PBF/particles.cpp:182-190 | pushing an unplaced node and tagging it with its index keeps the List invariant |
| Particles.Push | Fluid/src/PBF/particles.cpp:183-188 | the pointer statements of one distribute step produce exactly Prepend of the old handles |
| Particles.DistributeEnds | Fluid/src/PBF/particles.cpp:178-192 | the state the loop ends in has every particle in the bucket of its cell, tagged with its index, with PARTICLES_NUMBER entries in all |
| Particles.Distribute | Fluid/src/PBF/particles.cpp:178-192 | from the default List with every centre in a valid cell: the List stays valid; every particle i ends in bucket GetSegmentIndex(centers[i]) with value i; each bucket is exactly the ids of its cell, latest first |
| Particles.Penalty | Fluid/src/PBF/particles.cpp:201-217 | the penalty on one axis is collision_penalty (0.01, particles.cpp line 13) times the displacement back to the nearest point of [0, size]: zero strictly inside, at least 0 at or past the low wall, at most 0 at or past the high wall |
| Particles.CollisionResponse | Fluid/src/PBF/particles.cpp:194-218 | external[Index] gains the penalty of each axis; no other entry changes |
| Particles.BoundaryCondition | Fluid/src/PBF/particles.cpp:219-247 | on each axis: strictly inside, prediction and dp are unchanged; at or past a wall, dp becomes 0 and the prediction is put on that wall. The new prediction + dp is the nearest point of the box to the old one and lies in the closed box; no other entry changes |
| Particles.CollisionHandler | Fluid/src/PBF/particles.cpp:248-252 | the penalty is computed from the unclamped prediction + dp, then the position is clamped; the result is in the box, so it has a valid cell id |
| Particles.SortKey | Fluid/src/PBF/particles.cpp:144-145 | the key is GetSegmentIndex stored in an unsigned; for an in-box centre it is the cell id |
| Particles.SwapPermutes | Fluid/src/PBF/particles.cpp:147-151 | swapping two entries is a permutation, and one of the part from index t on when both are on the same side of t |
| Particles.CompareExchange | Fluid/src/PBF/particles.cpp:144-151 | afterwards key(ind1) <= key(ind2); the pairs are swapped exactly when the keys were out of order, otherwise unchanged |
| Particles.NetworkPair | Fluid/src/PBF/particles.cpp:125-142 | every index pair of the network satisfies 0 <= ind1 < ind2 < PARTICLES_NUMBER, and the two are on the same side of index 496 |
| Particles.Sort | Fluid/src/PBF/particles.cpp:120-157 | the (centre, direction) pairs are permuted, and the last four pairs (from index 496 on) are permuted among themselves |
| Particles.PrefixPermuted | Fluid/src/PBF/particles.cpp:120-157 | a permutation that keeps the entries from t on among themselves does the same for those before t |
| Particles.SortCannotOrderTail | Fluid/src/PBF/particles.cpp:120-157 | so sort does not order 500 particles in general: if the last particle's cell id is below those of the first 496, no result sort can produce is ordered by key |
| MinMath.PowerOf2 | Fluid/src/math/minmath.hpp:27-36 | for n >= 1 the result r satisfies 2^r <= n < 2^(r+1); for n <= 0 it is -1 |
| MinMath.PowerOf2IsLargest | Fluid/src/math/minmath.hpp:27-36 | any higher power of two exceeds n |
| MinMath.PowerOf2IsUnique | Fluid/src/math/minmath.hpp:27-36 | that exponent is unique, so powerof2(500) is 8 |
| MinMath.Pow | Fluid/src/math/minmath.hpp:37-46 | the result is a^k for k > 0 and 1 for k <= 0 |
| MinMath.Max | Fluid/src/math/minmath.hpp:74-77 | the larger of the two values: one of them, at least both, and v2 on a tie |
| MinMath.Min | Fluid/src/math/minmath.hpp:79-82 | the smaller of the two values: one of them, at most both, and v1 on a tie |

## Left out

- Floating point: positions, displacements and penalties are real numbers. Float rounding, NaN and signed zero are not modelled. This also covers `Max`/`Min` on NaN.
- Max, Min: on a NaN operand the source returns v2 (Max) or v1 (Min); reals have no NaN.
- GetSegmentIndex: returns the mathematical id. It does not model 32-bit overflow of `int` for positions far outside the box. The other callers only use in-box positions.
- StaticCeil: requires -1 < d < 2^32 - 1. Outside that range the float-to-unsigned conversion of the source is undefined.
- Pow: uses unbounded integers. The source's `int` would overflow for large a^k; sort only uses 2^1 .. 2^8.
- NewUpdateSegment: requires that, when pre != post, node i is in bucket pre. The callers keep that invariant; the source does not check it.
- NewUpdateSegment: the OpenMP critical section is left out. Concurrent callers are not modelled.
- Distribute: requires the default List (no node placed) and every centre in a valid cell. The source stores the id in an unsigned and indexes with it unchecked.
- Sort: no postcondition says the result is sorted. For 500 particles the network never moves an entry across index 496 (Particles.SortCannotOrderTail), so it does not sort in general.
- Sort: the OpenMP parallel loop, its chunk size and the unused `index` counter are left out. The loops run sequentially in the same order.
- particlesUpdate and the per-frame driver are not part of this model.
- The density/lambda solver, the kernels and the gradients are not part of this model.
- initParticles (random initial state) is not part of this model.
- The graphics and the main loop are not part of this model.
- The glm vector helpers beyond addition are not part of this model.
