/**
 * The particle-side operations the neighbour search and the boundary rely on:
 * moving one particle between the bucket lists, filling the buckets from scratch,
 * the wall penalty and clamp, and the compare-exchange network over the centres.
 */
module Particles {
  import opened Settings
  import opened MinMath
  import opened Arena
  import opened Segments

  // ---------------------------------------------------------------------------
  // Bucket maintenance

  /**
   * What newUpdateSegment needs of the handles to move node i from bucket pre to
   * bucket post: i's neighbours are other nodes, and the head of post is neither i
   * nor i's successor.
   */
  ghost predicate Movable(l: Links, i: int, pre: int, post: int)
  {
    match l
    case Links(next, prev, heads) =>
      && |next| == |prev| == ParticlesNumber && |heads| == CellsSize
      && 0 <= i < ParticlesNumber && 0 <= pre < CellsSize && 0 <= post < CellsSize && pre != post
      && (next[i] == Null || (0 <= next[i] < ParticlesNumber && next[i] != i))
      && (prev[i] == Null || (0 <= prev[i] < ParticlesNumber && prev[i] != i))
      && (heads[post] == Null || (0 <= heads[post] < ParticlesNumber && heads[post] != i))
      && (heads[post] == Null || heads[post] != next[i])
  }

  /** The handles after newUpdateSegment(i, pre, post) with pre != post. */
  function Move(l: Links, i: int, pre: int, post: int): (r: Links)
    requires Movable(l, i, pre, post)
  {
    Prepend(Unlink(l, i, pre), i, post)
  }

  /** A bucket's node can always be moved to another bucket, and the move keeps the arena well formed. */
  lemma MoveKeepsConsistent(l: Links, y: Layout, i: int, pre: int, post: int)
    requires Consistent(l, y, ParticlesNumber, CellsSize) && 0 <= i < ParticlesNumber
    requires y.bucketOf[i] == pre && 0 <= pre < CellsSize && 0 <= post < CellsSize && pre != post
    ensures Movable(l, i, pre, post)
    ensures Consistent(Move(l, i, pre, post), Added(Removed(y, i), i, post), ParticlesNumber, CellsSize)
  {
    PlacedNeighbours(l, y, ParticlesNumber, CellsSize, i);
    HeadIsPlaced(l, y, ParticlesNumber, CellsSize, post);
    UnlinkKeepsConsistent(l, y, ParticlesNumber, CellsSize, i, pre);
    var l1, y1 := Unlink(l, i, pre), Removed(y, i);
    HeadIsPlaced(l1, y1, ParticlesNumber, CellsSize, post);
    PrependKeepsConsistent(l1, y1, ParticlesNumber, CellsSize, i, post);
  }

  /**
   * The pointer statements of newUpdateSegment for pre != post, on the three handle
   * arrays: unlink node i from bucket pre, then push it in front of bucket post.
   */
  method Relink(next: array<int>, prev: array<int>, heads: array<int>, i: int, pre: int, post: int)
    requires next != prev && next != heads && prev != heads
    requires Movable(Links(next[..], prev[..], heads[..]), i, pre, post)
    modifies next, prev, heads
    ensures Links(next[..], prev[..], heads[..]) == Move(Links(old(next[..]), old(prev[..]), old(heads[..])), i, pre, post)
  {
    ghost var l := Links(next[..], prev[..], heads[..]);
    var nx, pv := next[i], prev[i];
    if nx != Null {
      prev[nx] := pv;
    }
    if pv != Null {
      next[pv] := nx;
    } else {
      heads[pre] := nx;
    }
    next[i] := heads[post];
    prev[i] := Null;
    var h := heads[post];
    if h != Null {
      prev[h] := i;
    }
    heads[post] := i;
    ghost var l1 := Unlink(l, i, pre);
    assert next[..] == Prepend(l1, i, post).next;
    assert prev[..] == Prepend(l1, i, post).prev;
    assert heads[..] == Prepend(l1, i, post).heads;
  }

  /**
   * y' is y with node i moved from bucket pre to the front of bucket post: bucket pre
   * loses i and keeps the order of the others, no other bucket changes, no other node
   * changes bucket, and the number of entries stays the same.
   */
  ghost predicate MovedLayout(y: Layout, y': Layout, i: int, pre: int, post: int)
    requires 0 <= i < ParticlesNumber && 0 <= pre < CellsSize && 0 <= post < CellsSize
    requires |y.buckets| == |y'.buckets| == CellsSize && |y.bucketOf| == |y'.bucketOf| == ParticlesNumber
    requires |y.slot| == |y'.slot| == ParticlesNumber && 0 <= y.slot[i] < |y.buckets[pre]|
  {
    var s, k := y.buckets[pre], y.slot[i];
    && y'.buckets[pre] == s[..k] + s[k + 1..]
    && i !in y'.buckets[pre]
    && y'.buckets[post] == [i] + y.buckets[post]
    && y'.bucketOf[i] == post && y'.slot[i] == 0
    && (forall b | 0 <= b < CellsSize && b != pre && b != post :: y'.buckets[b] == y.buckets[b])
    && (forall x | 0 <= x < ParticlesNumber && x != i :: y'.bucketOf[x] == y.bucketOf[x])
    && Total(y'.buckets) == Total(y.buckets)
  }

  /** Added after Removed is such a move. */
  lemma MoveLayout(y: Layout, i: int, pre: int, post: int)
    requires Indexed(y, ParticlesNumber, CellsSize) && 0 <= i < ParticlesNumber
    requires y.bucketOf[i] == pre && 0 <= pre < CellsSize && 0 <= post < CellsSize && pre != post
    ensures MovedLayout(y, Added(Removed(y, i), i, post), i, pre, post)
  {
    var y1 := Removed(y, i);
    var s, k := y.buckets[pre], y.slot[i];
    forall m | 0 <= m < |s| && m != k ensures s[m] != i {
      assert y.slot[s[m]] == m;
    }
    assert i !in s[..k] + s[k + 1..] by {
      var s' := s[..k] + s[k + 1..];
      forall m | 0 <= m < |s'| ensures s'[m] != i {
        if m < k { assert s'[m] == s[m]; } else { assert s'[m] == s[m + 1]; }
      }
    }
    TotalUpdate(y1.buckets, post, [i] + y1.buckets[post]);
    TotalUpdate(y.buckets, pre, y1.buckets[pre]);
  }

  /**
   * l' is l after the pointer updates of newUpdateSegment: i heads post with a null
   * prev and the old head as next, the old head points back to i, i's old neighbours
   * point past it (or the head of pre advances), and no other head changes.
   */
  ghost predicate MovedLinks(l: Links, l': Links, i: int, pre: int, post: int)
    requires Movable(l, i, pre, post)
    requires |l'.next| == |l'.prev| == ParticlesNumber && |l'.heads| == CellsSize
  {
    && l'.heads[post] == i && l'.prev[i] == Null && l'.next[i] == l.heads[post]
    && (l.heads[post] != Null ==> l'.prev[l.heads[post]] == i)
    && (l.prev[i] == Null ==> l'.heads[pre] == l.next[i])
    && (l.prev[i] != Null ==> l'.next[l.prev[i]] == l.next[i])
    && (l.next[i] != Null ==> l'.prev[l.next[i]] == l.prev[i])
    && (forall b | 0 <= b < CellsSize && b != pre && b != post :: l'.heads[b] == l.heads[b])
  }

  /** Move performs exactly those updates. */
  lemma MoveLinks(l: Links, i: int, pre: int, post: int)
    requires Movable(l, i, pre, post)
    ensures MovedLinks(l, Move(l, i, pre, post), i, pre, post)
  {
  }

  /** Moving a node keeps the List's arena and its tags well formed. */
  lemma MoveKeepsWellFormed(l: Links, y: Layout, v: seq<int>, i: int, pre: int, post: int)
    requires WellFormed(l, y, v) && 0 <= i < ParticlesNumber
    requires y.bucketOf[i] == pre && 0 <= pre < CellsSize && 0 <= post < CellsSize && pre != post
    ensures Movable(l, i, pre, post)
    ensures WellFormed(Move(l, i, pre, post), Added(Removed(y, i), i, post), v)
  {
    MoveKeepsConsistent(l, y, i, pre, post);
    TaggedAfterMove(v, y, i, post);
  }

  /** Moving a placed node to another bucket keeps the tags right. */
  lemma TaggedAfterMove(v: seq<int>, y: Layout, i: int, post: int)
    requires Indexed(y, ParticlesNumber, CellsSize) && Tagged(v, y.bucketOf)
    requires 0 <= i < ParticlesNumber && y.bucketOf[i] != Null && 0 <= post < CellsSize
    ensures Tagged(v, Added(Removed(y, i), i, post).bucketOf)
  {
    TaggedMove(v, y.bucketOf, i, post);
    assert Added(Removed(y, i), i, post).bucketOf == y.bucketOf[i := post];
  }

  /**
   * newUpdateSegment(i, pre, post): particle i moved from cell pre to cell post. When the
   * cells differ, node i is unlinked from bucket pre and pushed in front of bucket post.
   * The caller passes the cell i was filed under, so pre is i's bucket.
   */
  method NewUpdateSegment(segments: List, i: int, pre: int, post: int)
    requires segments.Valid()
    requires 0 <= i < ParticlesNumber && 0 <= pre < CellsSize && 0 <= post < CellsSize
    requires pre != post ==> segments.layout.bucketOf[i] == pre
    modifies segments, segments.next, segments.prev, segments.segments
    ensures segments.Valid()
    ensures pre == post ==> segments.layout == old(segments.layout)
    ensures pre == post ==> unchanged(segments.next, segments.prev, segments.segments)
    ensures pre != post ==> segments.layout == Added(Removed(old(segments.layout), i), i, post)
    ensures pre != post ==> Movable(old(segments.Handles()), i, pre, post)
    ensures pre != post ==> segments.Handles() == Move(old(segments.Handles()), i, pre, post)
  {
    if pre != post {
      ghost var l0, y0 := segments.Handles(), segments.layout;
      MoveKeepsWellFormed(l0, y0, segments.value[..], i, pre, post);
      Relink(segments.next, segments.prev, segments.segments, i, pre, post);
      segments.layout := Added(Removed(y0, i), i, post);
    }
  }

  /**
   * The ids below n whose centre lies in cell b, latest first: the bucket b that
   * distribute builds after its first n steps.
   */
  function IdsInCell(centers: seq<Vec2>, b: int, n: nat): (r: seq<int>)
    requires n <= |centers|
  {
    if n == 0 then []
    else (if GetSegmentIndex(centers[n - 1]) == b then [n - 1] else []) + IdsInCell(centers, b, n - 1)
  }

  /** All buckets after the first n steps of distribute. */
  function BucketsAfter(centers: seq<Vec2>, n: nat): (r: seq<seq<int>>)
    requires n <= |centers|
  {
    seq(CellsSize, b => IdsInCell(centers, b, n))
  }

  /** Step n + 1 of distribute pushes id n in front of the bucket of its cell, and changes no other bucket. */
  lemma BucketsAfterStep(centers: seq<Vec2>, n: nat)
    requires n < |centers| && 0 <= GetSegmentIndex(centers[n]) < CellsSize
    ensures var u := GetSegmentIndex(centers[n]);
      BucketsAfter(centers, n + 1) == BucketsAfter(centers, n)[u := [n] + BucketsAfter(centers, n)[u]]
  {
    var u := GetSegmentIndex(centers[n]);
    var before, after := BucketsAfter(centers, n), BucketsAfter(centers, n + 1);
    forall b | 0 <= b < CellsSize ensures after[b] == before[u := [n] + before[u]][b] {
      assert after[b] == (if b == u then [n] else []) + before[b];
    }
  }

  /** Bucket b holds exactly the ids below n whose centre is in cell b. */
  lemma {:induction false} IdsInCellMembers(centers: seq<Vec2>, b: int, n: nat, x: int)
    requires n <= |centers|
    ensures x in IdsInCell(centers, b, n) <==> 0 <= x < n && GetSegmentIndex(centers[x]) == b
  {
    if n > 0 {
      IdsInCellMembers(centers, b, n - 1, x);
    }
  }

  predicate StrictlyDecreasing(s: seq<int>)
  {
    forall k1, k2 | 0 <= k1 < k2 < |s| :: s[k1] > s[k2]
  }

  /** The ids in a bucket are strictly decreasing: each id is pushed in front of smaller ones. */
  lemma {:induction false} IdsInCellDecreasing(centers: seq<Vec2>, b: int, n: nat)
    requires n <= |centers|
    ensures StrictlyDecreasing(IdsInCell(centers, b, n))
  {
    if n > 0 {
      IdsInCellDecreasing(centers, b, n - 1);
      var t := IdsInCell(centers, b, n - 1);
      forall k | 0 <= k < |t| ensures t[k] < n - 1 {
        IdsInCellMembers(centers, b, n - 1, t[k]);
      }
      if GetSegmentIndex(centers[n - 1]) == b {
        var s := IdsInCell(centers, b, n);
        assert s == [n - 1] + t;
        forall k1, k2 | 0 <= k1 < k2 < |s| ensures s[k1] > s[k2] {
          if k1 > 0 {
            assert s[k1] == t[k1 - 1] && s[k2] == t[k2 - 1];
          } else {
            assert s[k2] == t[k2 - 1];
          }
        }
      }
    }
  }

  /** Buckets built from the cells of the centres hold the matching ids, in decreasing order. */
  lemma BucketsOfCells(centers: seq<Vec2>, buckets: seq<seq<int>>)
    requires |centers| == ParticlesNumber && buckets == BucketsAfter(centers, ParticlesNumber)
    ensures forall b, x | 0 <= b < CellsSize ::
      x in buckets[b] <==> 0 <= x < ParticlesNumber && GetSegmentIndex(centers[x]) == b
    ensures forall b | 0 <= b < CellsSize :: StrictlyDecreasing(buckets[b])
  {
    forall b, x | 0 <= b < CellsSize
      ensures x in buckets[b] <==> 0 <= x < ParticlesNumber && GetSegmentIndex(centers[x]) == b
    {
      IdsInCellMembers(centers, b, ParticlesNumber, x);
    }
    forall b | 0 <= b < CellsSize {
      IdsInCellDecreasing(centers, b, ParticlesNumber);
    }
  }

  /**
   * The List after distribute: every particle is in the bucket of its centre's cell and
   * carries its own index, each bucket is the one distribute builds, and the buckets
   * hold all the particles.
   */
  ghost predicate Distributed(y: Layout, value: seq<int>, centers: seq<Vec2>)
    requires |centers| == ParticlesNumber
  {
    && |y.bucketOf| == |value| == ParticlesNumber
    && (forall x | 0 <= x < ParticlesNumber :: y.bucketOf[x] == GetSegmentIndex(centers[x]) && value[x] == x)
    && y.buckets == BucketsAfter(centers, ParticlesNumber)
    && Total(y.buckets) == ParticlesNumber
  }

  /** The state distribute's loop ends in is Distributed. */
  lemma DistributeEnds(l: Links, y: Layout, value: seq<int>, centers: seq<Vec2>)
    requires |centers| == ParticlesNumber
    requires Consistent(l, y, ParticlesNumber, CellsSize) && Tagged(value, y.bucketOf)
    requires forall x | 0 <= x < ParticlesNumber :: y.bucketOf[x] == GetSegmentIndex(centers[x])
    requires forall x | 0 <= x < ParticlesNumber :: 0 <= GetSegmentIndex(centers[x]) < CellsSize
    requires y.buckets == BucketsAfter(centers, ParticlesNumber)
    ensures Distributed(y, value, centers)
  {
    TotalWhenAllPlaced(l, y, ParticlesNumber, CellsSize);
  }

  /**
   * distribute(): fill the buckets of the default List, pushing each particle i, in
   * increasing order, in front of the bucket of the cell of its centre, and tagging its
   * node with value i.
   */
  method Distribute(segments: List, centers: array<Vec2>)
    requires segments.Valid()
    requires forall x | 0 <= x < ParticlesNumber :: segments.layout.bucketOf[x] == Null
    requires centers.Length == ParticlesNumber
    requires forall x | 0 <= x < ParticlesNumber :: 0 <= GetSegmentIndex(centers[x]) < CellsSize
    modifies segments, segments.value, segments.next, segments.prev, segments.segments
    ensures segments.Valid()
    ensures Distributed(segments.layout, segments.value[..], centers[..])
  {
    NonePlacedMeansEmpty(segments.Handles(), segments.layout, ParticlesNumber, CellsSize);
    ghost var cs := centers[..];
    assert segments.layout.buckets == BucketsAfter(cs, 0);
    for i := 0 to ParticlesNumber
      invariant segments.Valid()
      invariant forall x | 0 <= x < ParticlesNumber ::
        segments.layout.bucketOf[x] == if x < i then GetSegmentIndex(centers[x]) else Null
      invariant segments.layout.buckets == BucketsAfter(cs, i)
    {
      var unit := GetSegmentIndex(centers[i]);
      BucketsAfterStep(cs, i);
      PushParticle(segments, i, unit);
    }
    DistributeEnds(segments.Handles(), segments.layout, segments.value[..], cs);
  }

  /** One step of distribute: node i, in no bucket yet, is pushed in front of bucket b and tagged i. */
  method PushParticle(segments: List, i: int, b: int)
    requires segments.Valid()
    requires 0 <= i < ParticlesNumber && 0 <= b < CellsSize && segments.layout.bucketOf[i] == Null
    modifies segments, segments.value, segments.next, segments.prev, segments.segments
    ensures segments.Valid()
    ensures segments.layout.buckets == old(segments.layout.buckets)[b := [i] + old(segments.layout.buckets[b])]
    ensures segments.layout.bucketOf == old(segments.layout.bucketOf)[i := b]
  {
    ghost var l0, y0, v0 := segments.Handles(), segments.layout, segments.value[..];
    PushKeepsWellFormed(l0, y0, v0, i, b);
    Push(segments.next, segments.prev, segments.segments, i, b);
    assert segments.segments[b] == i by {
      assert segments.segments[..] == l0.heads[b := i];
    }
    segments.value[segments.segments[b]] := i;
    segments.layout := Added(y0, i, b);
    assert segments.value[..] == v0[i := i];
  }

  /** Pushing a node that is in no bucket keeps the List's arena and its tags well formed. */
  lemma PushKeepsWellFormed(l: Links, y: Layout, v: seq<int>, i: int, b: int)
    requires WellFormed(l, y, v) && 0 <= i < ParticlesNumber && 0 <= b < CellsSize && y.bucketOf[i] == Null
    ensures l.heads[b] == Null || 0 <= l.heads[b] < ParticlesNumber
    ensures WellFormed(Prepend(l, i, b), Added(y, i, b), v[i := i])
  {
    HeadIsPlaced(l, y, ParticlesNumber, CellsSize, b);
    PrependKeepsConsistent(l, y, ParticlesNumber, CellsSize, i, b);
    TaggedAfterPush(v, y, i, b);
  }

  /** Placing a node that is in no bucket keeps the tags right once its value is its index. */
  lemma TaggedAfterPush(v: seq<int>, y: Layout, i: int, b: int)
    requires Tagged(v, y.bucketOf) && |y.slot| == |y.bucketOf| && 0 <= i < |v| && 0 <= b < |y.buckets|
    ensures Tagged(v[i := i], Added(y, i, b).bucketOf)
  {
    TaggedPlace(v, y.bucketOf, i, b);
    assert Added(y, i, b).bucketOf == y.bucketOf[i := b];
  }

  /** The pointer statements of one step of distribute: push node i in front of bucket b. */
  method Push(next: array<int>, prev: array<int>, heads: array<int>, i: int, b: int)
    requires next != prev && next != heads && prev != heads && next.Length == prev.Length
    requires 0 <= i < next.Length && 0 <= b < heads.Length
    requires heads[b] == Null || 0 <= heads[b] < next.Length
    modifies next, prev, heads
    ensures Links(next[..], prev[..], heads[..]) == Prepend(Links(old(next[..]), old(prev[..]), old(heads[..])), i, b)
  {
    ghost var l := Links(next[..], prev[..], heads[..]);
    next[i] := heads[b];
    if heads[b] != Null {
      prev[heads[b]] := i;
    }
    heads[b] := i;
    assert next[..] == Prepend(l, i, b).next;
    assert prev[..] == Prepend(l, i, b).prev;
  }

  // ---------------------------------------------------------------------------
  // The box walls

  const CollisionPenalty: real := 0.01

  /**
   * The penalty collisionResponse adds on one axis, for a coordinate rel measured from
   * the low wall of a box of extent size: collision_penalty times the displacement back
   * to the nearest point of [0, size], so nothing inside the open box, a push up at the
   * low wall and a push down at the high wall.
   */
  function Penalty(rel: real, size: real): (r: real)
    requires size > 0.0
    ensures r == CollisionPenalty * (Max(0.0, Min(rel, size)) - rel)
    ensures rel <= 0.0 ==> r >= 0.0
    ensures rel >= size ==> r <= 0.0
    ensures 0.0 < rel < size ==> r == 0.0
  {
    if rel <= 0.0 then -CollisionPenalty * rel
    else if rel >= size then -CollisionPenalty * (rel - size)
    else 0.0
  }

  /** collisionResponse(pos, Index): add the wall penalty for position pos to external[Index]. */
  method CollisionResponse(external: array<Vec2>, pos: Vec2, index: int)
    requires 0 <= index < external.Length
    modifies external
    ensures external[index] ==
      old(external[index]).Plus(Vec2(Penalty(pos.x - XMin, BoxWidth as real), Penalty(pos.y - YMin, BoxHeight as real)))
    ensures forall j | 0 <= j < external.Length && j != index :: external[j] == old(external[j])
  {
    var relative := Vec2(pos.x - XMin, pos.y - YMin);
    if relative.x <= 0.0 {
      external[index] := external[index].(x := external[index].x + -CollisionPenalty * relative.x);
    } else if relative.x >= BoxWidth as real {
      external[index] := external[index].(x := external[index].x + -CollisionPenalty * (relative.x - BoxWidth as real));
    }
    if relative.y <= 0.0 {
      external[index] := external[index].(y := external[index].y + -CollisionPenalty * relative.y);
    } else if relative.y >= BoxHeight as real {
      external[index] := external[index].(y := external[index].y + -CollisionPenalty * (relative.y - BoxHeight as real));
    }
  }

  /**
   * One axis of boundaryCondition: p and d are the prediction and displacement before,
   * p' and d' after. Strictly inside the walls nothing changes; at or past a wall the
   * displacement is dropped and the prediction put on that wall. Either way p' + d' is
   * the nearest point of [lo, hi] to p + d.
   */
  ghost predicate AxisClamped(p: real, d: real, p': real, d': real, lo: real, hi: real)
  {
    && (lo < p + d < hi ==> p' == p && d' == d)
    && (p + d <= lo ==> p' == lo && d' == 0.0)
    && (p + d >= hi ==> p' == hi && d' == 0.0)
    && p' + d' == Max(lo, Min(p + d, hi))
  }

  /**
   * boundaryCondition(Index, dp): keep prediction[Index] + dp inside the closed box. The
   * reference parameter dp is passed in and its new value returned.
   */
  method BoundaryCondition(prediction: array<Vec2>, index: int, dp: Vec2) returns (dp': Vec2)
    requires 0 <= index < prediction.Length
    modifies prediction
    ensures AxisClamped(old(prediction[index].x), dp.x, prediction[index].x, dp'.x, XMin, XMax)
    ensures AxisClamped(old(prediction[index].y), dp.y, prediction[index].y, dp'.y, YMin, YMax)
    ensures InBox(prediction[index].Plus(dp'))
    ensures forall j | 0 <= j < prediction.Length && j != index :: prediction[j] == old(prediction[j])
  {
    var relative := prediction[index].Plus(dp);
    relative := Vec2(relative.x - XMin, relative.y - YMin);
    dp' := dp;
    if relative.x <= 0.0 {
      dp' := dp'.(x := 0.0);
      prediction[index] := prediction[index].(x := XMin);
    } else if relative.x >= BoxWidth as real {
      dp' := dp'.(x := 0.0);
      prediction[index] := prediction[index].(x := XMax);
    }
    if relative.y <= 0.0 {
      dp' := dp'.(y := 0.0);
      prediction[index] := prediction[index].(y := YMin);
    } else if relative.y >= BoxHeight as real {
      dp' := dp'.(y := 0.0);
      prediction[index] := prediction[index].(y := YMax);
    }
  }

  /**
   * collisionHandler(Index, dp): the penalty is computed from the unclamped
   * prediction[Index] + dp, then the position is clamped. Afterwards the particle is in
   * the box, so it has a valid cell.
   */
  method CollisionHandler(prediction: array<Vec2>, external: array<Vec2>, index: int, dp: Vec2) returns (dp': Vec2)
    requires prediction != external
    requires 0 <= index < prediction.Length && index < external.Length
    modifies prediction, external
    ensures var q := old(prediction[index]).Plus(dp);
      external[index] ==
      old(external[index]).Plus(Vec2(Penalty(q.x - XMin, BoxWidth as real), Penalty(q.y - YMin, BoxHeight as real)))
    ensures AxisClamped(old(prediction[index].x), dp.x, prediction[index].x, dp'.x, XMin, XMax)
    ensures AxisClamped(old(prediction[index].y), dp.y, prediction[index].y, dp'.y, YMin, YMax)
    ensures InBox(prediction[index].Plus(dp'))
    ensures 0 <= GetSegmentIndex(prediction[index].Plus(dp')) < CellsSize
    ensures forall j | 0 <= j < prediction.Length && j != index :: prediction[j] == old(prediction[j])
    ensures forall j | 0 <= j < external.Length && j != index :: external[j] == old(external[j])
  {
    CollisionResponse(external, prediction[index].Plus(dp), index);
    dp' := BoundaryCondition(prediction, index, dp);
  }

  // ---------------------------------------------------------------------------
  // Sorting the particles by cell

  /** The sort key: GetSegmentIndex of a centre, stored in an unsigned. For an in-box centre it is the cell id. */
  function SortKey(p: Vec2): (r: nat)
    ensures r < U32
    ensures InBox(p) ==> r == GetSegmentIndex(p)
  {
    GridDimensions();
    ToUnsigned(GetSegmentIndex(p))
  }

  /** The particles as (centre, direction) pairs: sort moves both arrays together. */
  function Pairs(c: seq<Vec2>, d: seq<Vec2>): (r: seq<(Vec2, Vec2)>)
    requires |c| == |d|
  {
    seq(|c|, k requires 0 <= k < |c| => (c[k], d[k]))
  }

  function Swap<T>(s: seq<T>, i: int, j: int): (r: seq<T>)
    requires 0 <= i < |s| && 0 <= j < |s|
  {
    s[i := s[j]][j := s[i]]
  }

  /** A swap permutes the whole sequence, and, when it does not cross index t, also the part from t on. */
  lemma SwapPermutes<T>(s: seq<T>, i: int, j: int, t: int)
    requires 0 <= i < |s| && 0 <= j < |s| && 0 <= t <= |s|
    requires i < t <==> j < t
    ensures multiset(Swap(s, i, j)) == multiset(s)
    ensures multiset(Swap(s, i, j)[t..]) == multiset(s[t..])
  {
    if i >= t {
      assert Swap(s, i, j)[t..] == Swap(s[t..], i - t, j - t);
    } else {
      assert Swap(s, i, j)[t..] == s[t..];
    }
  }

  /**
   * The body of sort's innermost loop: compare the cell ids of centres ind1 < ind2 as
   * unsigned values and, when they are out of order, swap both the centres and the
   * directions. Afterwards the pair is in order.
   */
  method CompareExchange(centers: array<Vec2>, dir: array<Vec2>, ind1: int, ind2: int)
    requires centers != dir && centers.Length == dir.Length
    requires 0 <= ind1 < ind2 < centers.Length
    modifies centers, dir
    ensures SortKey(centers[ind1]) <= SortKey(centers[ind2])
    ensures Pairs(centers[..], dir[..]) ==
      var p := Pairs(old(centers[..]), old(dir[..]));
      if SortKey(old(centers[ind1])) > SortKey(old(centers[ind2])) then Swap(p, ind1, ind2) else p
  {
    var segInd1 := SortKey(centers[ind1]);
    var segInd2 := SortKey(centers[ind2]);
    if segInd1 > segInd2 {
      centers[ind1], centers[ind2] := centers[ind2], centers[ind1];
      dir[ind1], dir[ind2] := dir[ind2], dir[ind1];
    }
  }

  /**
   * For 500 particles no compare-exchange of sort crosses index 496: every block of
   * distance entries the network touches lies wholly below it or wholly above it.
   */
  const SortTail: nat := 496

  /**
   * The index pair of sort's innermost loop for i, j, k, l: in the flip step (j == i)
   * entry l of block k meets its mirror, otherwise l meets l + distance / 2. Both are
   * particle indices, the first is the smaller, and they are on the same side of
   * SortTail.
   */
  lemma NetworkPair(i: int, j: int, k: int, l: int, distance: int)
    requires 1 <= j <= i <= 8 && distance == Power(2, j) && distance > 0
    requires 0 <= k < ParticlesNumber / distance && 0 <= l < distance / 2
    ensures var ind1 := k * distance + l;
      var ind2 := if j != i then k * distance + l + distance / 2 else (k + 1) * distance - l - 1;
      && 0 <= ind1 < ind2 < ParticlesNumber
      && (ind1 < SortTail <==> ind2 < SortTail)
  {
    if j == 1 {
      assert distance == 2;
    } else if j == 2 {
      assert distance == 4;
    } else if j == 3 {
      assert distance == 8;
    } else if j == 4 {
      assert distance == 16;
    } else if j == 5 {
      assert distance == 32;
    } else if j == 6 {
      assert distance == 64;
    } else if j == 7 {
      assert distance == 128;
    } else {
      assert distance == 256;
    }
  }

  /** The pairs are a permutation of p0, and so are the ones from SortTail on. */
  ghost predicate PermutedPairs(c: seq<Vec2>, d: seq<Vec2>, p0: seq<(Vec2, Vec2)>)
    requires |c| == |d| && SortTail <= |c|
  {
    && multiset(Pairs(c, d)) == multiset(p0)
    && |p0| == |c|
    && multiset(Pairs(c, d)[SortTail..]) == multiset(p0[SortTail..])
  }

  /**
   * sort(): the compare-exchange network over the particles, keyed by cell id. It only
   * permutes the (centre, direction) pairs, and for 500 particles it leaves the four from
   * index 496 on among themselves.
   */
  method Sort(centers: array<Vec2>, dir: array<Vec2>)
    requires centers != dir && centers.Length == dir.Length == ParticlesNumber
    modifies centers, dir
    ensures multiset(Pairs(centers[..], dir[..])) == multiset(Pairs(old(centers[..]), old(dir[..])))
    ensures multiset(Pairs(centers[..], dir[..])[SortTail..]) == multiset(Pairs(old(centers[..]), old(dir[..]))[SortTail..])
  {
    ghost var p0 := Pairs(centers[..], dir[..]);
    var power := PowerOf2(ParticlesNumber);
    PowerOf2IsUnique(ParticlesNumber, power, 8);
    for i := 1 to power + 1
      invariant PermutedPairs(centers[..], dir[..], p0)
    {
      var j := i;
      while j > 0
        invariant 0 <= j <= i
        invariant PermutedPairs(centers[..], dir[..], p0)
      {
        var distance := Pow(2, j);
        PowerOfTwoPositive(j);
        var nComps := ParticlesNumber / distance;
        for k := 0 to nComps
          invariant PermutedPairs(centers[..], dir[..], p0)
        {
          for l := 0 to distance / 2
            invariant PermutedPairs(centers[..], dir[..], p0)
          {
            var ind1, ind2;
            ind1 := k * distance + l;
            if j != i {
              ind2 := k * distance + l + distance / 2;
            } else {
              ind2 := (k + 1) * distance - l - 1;
            }
            NetworkPair(i, j, k, l, distance);
            ghost var p := Pairs(centers[..], dir[..]);
            SwapPermutes(p, ind1, ind2, SortTail);
            CompareExchange(centers, dir, ind1, ind2);
          }
        }
        j := j - 1;
      }
    }
  }

  /** Entries sorted by cell id. */
  ghost predicate SortedByKey(p: seq<(Vec2, Vec2)>)
  {
    forall k1, k2 | 0 <= k1 < k2 < |p| :: SortKey(p[k1].0) <= SortKey(p[k2].0)
  }

  /** When a permutation keeps the entries from t on among themselves, it keeps those before t among themselves too. */
  lemma PrefixPermuted<T>(p0: seq<T>, p: seq<T>, t: nat)
    requires t <= |p0| && t <= |p|
    requires multiset(p) == multiset(p0) && multiset(p[t..]) == multiset(p0[t..])
    ensures multiset(p[..t]) == multiset(p0[..t])
  {
    assert p == p[..t] + p[t..];
    assert p0 == p0[..t] + p0[t..];
    assert multiset(p) == multiset(p[..t]) + multiset(p[t..]);
    assert multiset(p0) == multiset(p0[..t]) + multiset(p0[t..]);
    forall x ensures multiset(p[..t])[x] == multiset(p0[..t])[x] {
      assert multiset(p)[x] == multiset(p[..t])[x] + multiset(p[t..])[x];
      assert multiset(p0)[x] == multiset(p0[..t])[x] + multiset(p0[t..])[x];
    }
  }

  /**
   * Sort therefore does not sort 500 particles in general: when the last particle has a
   * smaller cell id than all of the first 496, no permutation that keeps the last four
   * among themselves is in order.
   */
  lemma SortCannotOrderTail(p0: seq<(Vec2, Vec2)>, p: seq<(Vec2, Vec2)>)
    requires |p0| == |p| == ParticlesNumber
    requires multiset(p) == multiset(p0) && multiset(p[SortTail..]) == multiset(p0[SortTail..])
    requires forall k | 0 <= k < SortTail :: SortKey(p0[k].0) > SortKey(p0[ParticlesNumber - 1].0)
    ensures !SortedByKey(p)
  {
    var e := p0[ParticlesNumber - 1];
    assert e in multiset(p0[SortTail..]);
    assert e in p[SortTail..];
    var m :| SortTail <= m < |p| && p[m] == e;
    PrefixPermuted(p0, p, SortTail);
    assert p[0] in p[..SortTail];
    assert p[0] in multiset(p0[..SortTail]);
    var m' :| 0 <= m' < SortTail && p0[m'] == p[0];
    assert SortKey(p[0].0) > SortKey(p[m].0);
  }
}
