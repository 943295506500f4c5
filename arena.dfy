/**
 * The bucket lists of the spatial index as an arena (the `Node indices[N]` and
 * `Node* segments[cellsSize]` pair of Fluid/src/NearestNeighborSearch/segments.hpp):
 * node i's `next` and `prev` pointers become integer handles into the same arena and
 * every bucket head is a handle, with Null for nullptr.
 *
 * This module holds the value-level theory: what a well-formed arena is, the two
 * primitive rewirings that newUpdateSegment and distribute perform, and the proofs that
 * both keep the arena well formed.
 */
module Arena {

  /** The handle that stands for nullptr. */
  const Null: int := -1

  /** The concrete link fields: next and prev of every node, the head of every bucket. */
  datatype Links = Links(next: seq<int>, prev: seq<int>, heads: seq<int>)

  /**
   * The abstract content of the arena: each bucket's nodes in list order, and for every
   * node the bucket it is in (Null when it is in none) and its position in that bucket.
   */
  datatype Layout = Layout(buckets: seq<seq<int>>, bucketOf: seq<int>, slot: seq<int>)

  /** The node a list starts with, the node after position k and the node before it. */
  function HeadOf(s: seq<int>): (r: int)
  {
    if |s| == 0 then Null else s[0]
  }

  function After(s: seq<int>, k: int): (r: int)
  {
    if 0 <= k && k + 1 < |s| then s[k + 1] else Null
  }

  function Before(s: seq<int>, k: int): (r: int)
  {
    if 0 < k <= |s| then s[k - 1] else Null
  }

  /**
   * The layout is a partial bijection between nodes and bucket positions: every entry of
   * every bucket is a node that records this very bucket and position, and every node
   * that records a bucket is found there. So no node is listed twice.
   */
  ghost predicate Indexed(y: Layout, n: nat, c: nat)
  {
    && |y.buckets| == c && |y.bucketOf| == n && |y.slot| == n
    && (forall b, k | 0 <= b < c && 0 <= k < |y.buckets[b]| ::
          && 0 <= y.buckets[b][k] < n
          && y.bucketOf[y.buckets[b][k]] == b
          && y.slot[y.buckets[b][k]] == k)
    && (forall x | 0 <= x < n && y.bucketOf[x] != Null ::
          && 0 <= y.bucketOf[x] < c
          && 0 <= y.slot[x] < |y.buckets[y.bucketOf[x]]|
          && y.buckets[y.bucketOf[x]][y.slot[x]] == x)
  }

  /**
   * The links spell out the layout: each head is its bucket's first node, each node's
   * next and prev are its neighbours in its bucket, and a node in no bucket has null links.
   */
  ghost predicate Linked(l: Links, y: Layout, n: nat, c: nat)
    requires Indexed(y, n, c)
  {
    && |l.next| == n && |l.prev| == n && |l.heads| == c
    && (forall b | 0 <= b < c :: l.heads[b] == HeadOf(y.buckets[b]))
    && (forall b, k | 0 <= b < c && 0 <= k < |y.buckets[b]| ::
          && l.next[y.buckets[b][k]] == After(y.buckets[b], k)
          && l.prev[y.buckets[b][k]] == Before(y.buckets[b], k))
    && (forall x | 0 <= x < n && y.bucketOf[x] == Null :: l.next[x] == Null && l.prev[x] == Null)
  }

  /** The number of entries over all buckets. */
  function Total(bs: seq<seq<int>>): (r: nat)
  {
    if bs == [] then 0 else Total(bs[..|bs| - 1]) + |bs[|bs| - 1]|
  }

  /** The number of nodes that are in some bucket. */
  function CountPlaced(w: seq<int>): (r: nat)
  {
    if w == [] then 0 else CountPlaced(w[..|w| - 1]) + (if w[|w| - 1] != Null then 1 else 0)
  }

  /** A well-formed arena of n nodes and c buckets. */
  ghost predicate Consistent(l: Links, y: Layout, n: nat, c: nat)
  {
    match y
    case Layout(buckets, bucketOf, _) =>
      && Indexed(y, n, c)
      && Linked(l, y, n, c)
      && Total(buckets) == CountPlaced(bucketOf)
  }

  /** The arena of a default List: every handle null, every bucket empty. */
  function EmptyLinks(n: nat, c: nat): (r: Links)
  {
    Links(seq(n, _ => Null), seq(n, _ => Null), seq(c, _ => Null))
  }

  function EmptyLayout(n: nat, c: nat): (r: Layout)
  {
    Layout(seq(c, _ => []), seq(n, _ => Null), seq(n, _ => 0))
  }

  // ---------------------------------------------------------------------------
  // Counting

  lemma {:induction false} TotalUpdate(bs: seq<seq<int>>, b: int, s: seq<int>)
    requires 0 <= b < |bs|
    ensures Total(bs[b := s]) == Total(bs) - |bs[b]| + |s|
  {
    var last := |bs| - 1;
    if b < last {
      assert bs[b := s][..last] == bs[..last][b := s];
      TotalUpdate(bs[..last], b, s);
    } else {
      assert bs[b := s][..last] == bs[..last];
    }
  }

  lemma {:induction false} CountPlacedUpdate(w: seq<int>, i: int, v: int)
    requires 0 <= i < |w|
    ensures CountPlaced(w[i := v]) ==
      CountPlaced(w) - (if w[i] != Null then 1 else 0) + (if v != Null then 1 else 0)
  {
    var last := |w| - 1;
    if i < last {
      assert w[i := v][..last] == w[..last][i := v];
      CountPlacedUpdate(w[..last], i, v);
    } else {
      assert w[i := v][..last] == w[..last];
    }
  }

  lemma {:induction false} TotalOfEmpty(c: nat)
    ensures Total(seq(c, _ => [])) == 0
  {
    if c > 0 {
      var e: seq<int> := [];
      assert seq(c, _ => e)[..c - 1] == seq(c - 1, _ => e);
      TotalOfEmpty(c - 1);
    }
  }

  lemma {:induction false} CountPlacedNone(n: nat)
    ensures CountPlaced(seq(n, _ => Null)) == 0
  {
    if n > 0 {
      assert seq(n, _ => Null)[..n - 1] == seq(n - 1, _ => Null);
      CountPlacedNone(n - 1);
    }
  }

  /** When every node is in some bucket, all of them are counted. */
  lemma {:induction false} CountPlacedAll(w: seq<int>)
    requires forall x | 0 <= x < |w| :: w[x] != Null
    ensures CountPlaced(w) == |w|
  {
    if w != [] {
      CountPlacedAll(w[..|w| - 1]);
    }
  }

  /** In a well-formed arena where every node is placed, the buckets hold exactly n entries. */
  lemma TotalWhenAllPlaced(l: Links, y: Layout, n: nat, c: nat)
    requires Consistent(l, y, n, c)
    requires forall x | 0 <= x < n :: y.bucketOf[x] != Null
    ensures Total(y.buckets) == n
  {
    CountPlacedAll(y.bucketOf);
  }

  /** Buckets holding no entries in total are all empty. */
  lemma {:induction false} TotalZero(bs: seq<seq<int>>)
    requires Total(bs) == 0
    ensures forall b | 0 <= b < |bs| :: bs[b] == []
  {
    if bs != [] {
      TotalZero(bs[..|bs| - 1]);
      assert forall b | 0 <= b < |bs| - 1 :: bs[b] == bs[..|bs| - 1][b];
    }
  }

  /** When no node is placed, every bucket is empty. */
  lemma NonePlacedMeansEmpty(l: Links, y: Layout, n: nat, c: nat)
    requires Consistent(l, y, n, c)
    requires forall x | 0 <= x < n :: y.bucketOf[x] == Null
    ensures forall b | 0 <= b < c :: y.buckets[b] == []
  {
    assert y.bucketOf == seq(n, _ => Null);
    CountPlacedNone(n);
    TotalZero(y.buckets);
  }

  lemma EmptyIsConsistent(n: nat, c: nat)
    ensures Consistent(EmptyLinks(n, c), EmptyLayout(n, c), n, c)
  {
    TotalOfEmpty(c);
    CountPlacedNone(n);
  }

  // ---------------------------------------------------------------------------
  // Well-formedness seen from one node

  /**
   * Both directions of the doubly-linked invariant: next[a] == b exactly when prev[b] == a,
   * for any two non-null handles.
   */
  lemma DoublyLinked(l: Links, y: Layout, n: nat, c: nat, a: int, b: int)
    requires Consistent(l, y, n, c)
    requires 0 <= a < n && 0 <= b < n
    ensures l.next[a] == b <==> l.prev[b] == a
  {
    if l.next[a] == b {
      var ba, ka := y.bucketOf[a], y.slot[a];
      assert y.buckets[ba][ka] == a;
      assert y.buckets[ba][ka + 1] == b;
    }
    if l.prev[b] == a {
      var bb, kb := y.bucketOf[b], y.slot[b];
      assert y.buckets[bb][kb] == b;
      assert y.buckets[bb][kb - 1] == a;
    }
  }

  /**
   * The neighbours of a placed node i: its next and prev are null or nodes of the same
   * bucket, different from i and from each other; the head of any other bucket is not i.
   */
  lemma PlacedNeighbours(l: Links, y: Layout, n: nat, c: nat, i: int)
    requires Consistent(l, y, n, c)
    requires 0 <= i < n && y.bucketOf[i] != Null
    ensures var b, k := y.bucketOf[i], y.slot[i];
      && l.next[i] == After(y.buckets[b], k)
      && l.prev[i] == Before(y.buckets[b], k)
      && (l.next[i] == Null || (0 <= l.next[i] < n && l.next[i] != i && y.bucketOf[l.next[i]] == b))
      && (l.prev[i] == Null || (0 <= l.prev[i] < n && l.prev[i] != i && y.bucketOf[l.prev[i]] == b))
      && (l.prev[i] == Null ==> k == 0 && l.heads[b] == i)
      && (l.next[i] == Null || l.next[i] != l.prev[i])
  {
    var b, k := y.bucketOf[i], y.slot[i];
    assert y.buckets[b][k] == i;
    if k + 1 < |y.buckets[b]| {
      assert y.slot[y.buckets[b][k + 1]] == k + 1;
    }
    if k > 0 {
      assert y.slot[y.buckets[b][k - 1]] == k - 1;
      if k + 1 < |y.buckets[b]| {
        assert y.slot[y.buckets[b][k + 1]] != y.slot[y.buckets[b][k - 1]];
      }
    }
  }

  /** The head of a bucket is null or a node of that bucket with a null prev. */
  lemma HeadIsPlaced(l: Links, y: Layout, n: nat, c: nat, b: int)
    requires Consistent(l, y, n, c)
    requires 0 <= b < c
    ensures l.heads[b] == Null || (0 <= l.heads[b] < n && y.bucketOf[l.heads[b]] == b && l.prev[l.heads[b]] == Null)
  {
    if y.buckets[b] != [] {
      assert y.buckets[b][0] == l.heads[b];
    }
  }

  // ---------------------------------------------------------------------------
  // Unlinking a node from its bucket

  /**
   * The first half of newUpdateSegment: the successor's prev skips i, the predecessor's
   * next skips i (or, when i heads its bucket, the head advances to i's next). Here i's
   * own links are cleared as well; the source overwrites them right after, in the
   * prepend step, so the cleared values are never observed.
   */
  function Unlink(l: Links, i: int, pre: int): (r: Links)
    requires |l.next| == |l.prev| && 0 <= i < |l.next| && 0 <= pre < |l.heads|
    requires l.next[i] == Null || 0 <= l.next[i] < |l.prev|
    requires l.prev[i] == Null || 0 <= l.prev[i] < |l.next|
  {
    var nx, pv := l.next[i], l.prev[i];
    var prev1 := if nx != Null then l.prev[nx := pv] else l.prev;
    var next1 := if pv != Null then l.next[pv := nx] else l.next;
    var heads1 := if pv != Null then l.heads else l.heads[pre := nx];
    Links(next1[i := Null], prev1[i := Null], heads1)
  }

  /** The layout with node i taken out of its bucket: the others keep their order. */
  function Removed(y: Layout, i: int): (r: Layout)
    requires 0 <= i < |y.bucketOf| && |y.slot| == |y.bucketOf|
    requires 0 <= y.bucketOf[i] < |y.buckets| && 0 <= y.slot[i] < |y.buckets[y.bucketOf[i]]|
  {
    var b, k := y.bucketOf[i], y.slot[i];
    var s := y.buckets[b];
    Layout(
      y.buckets[b := s[..k] + s[k + 1..]],
      y.bucketOf[i := Null],
      seq(|y.slot|, x requires 0 <= x < |y.slot| =>
        if y.bucketOf[x] == b && y.slot[x] > k then y.slot[x] - 1 else y.slot[x]))
  }

  lemma RemovedBucket(y: Layout, i: int) returns (s: seq<int>, s': seq<int>, k: int)
    requires 0 <= i < |y.bucketOf| && |y.slot| == |y.bucketOf|
    requires 0 <= y.bucketOf[i] < |y.buckets| && 0 <= y.slot[i] < |y.buckets[y.bucketOf[i]]|
    ensures k == y.slot[i] && s == y.buckets[y.bucketOf[i]] && s' == Removed(y, i).buckets[y.bucketOf[i]]
    ensures |s'| == |s| - 1
    ensures forall m | 0 <= m < |s'| :: s'[m] == if m < k then s[m] else s[m + 1]
  {
    k := y.slot[i];
    s := y.buckets[y.bucketOf[i]];
    s' := s[..k] + s[k + 1..];
  }

  lemma UnlinkKeepsIndexed(y: Layout, n: nat, c: nat, i: int)
    requires Indexed(y, n, c) && 0 <= i < n && y.bucketOf[i] != Null
    ensures Indexed(Removed(y, i), n, c)
  {
    var b0 := y.bucketOf[i];
    var y' := Removed(y, i);
    var s, s', k0 := RemovedBucket(y, i);
    assert s[k0] == i;
    forall b, k | 0 <= b < c && 0 <= k < |y'.buckets[b]|
      ensures 0 <= y'.buckets[b][k] < n
      ensures y'.bucketOf[y'.buckets[b][k]] == b && y'.slot[y'.buckets[b][k]] == k
    {
      if b == b0 {
        if k < k0 {
          assert y'.buckets[b][k] == s[k];
        } else {
          assert y'.buckets[b][k] == s[k + 1];
        }
      } else {
        assert y'.buckets[b] == y.buckets[b];
        assert y.buckets[b][k] != i;
      }
    }
    forall x | 0 <= x < n && y'.bucketOf[x] != Null
      ensures 0 <= y'.bucketOf[x] < c
      ensures 0 <= y'.slot[x] < |y'.buckets[y'.bucketOf[x]]|
      ensures y'.buckets[y'.bucketOf[x]][y'.slot[x]] == x
    {
      var bx, sx := y.bucketOf[x], y.slot[x];
      assert x != i;
      assert y.buckets[bx][sx] == x;
      if bx == b0 {
        assert sx != k0;
        if sx < k0 {
          assert s'[sx] == s[sx];
        } else {
          assert s'[sx - 1] == s[sx];
        }
      }
    }
  }

  /** The links of a node other than i after Unlink. */
  lemma UnlinkAt(l: Links, i: int, pre: int, x: int)
    requires |l.next| == |l.prev| && 0 <= i < |l.next| && 0 <= pre < |l.heads|
    requires l.next[i] == Null || 0 <= l.next[i] < |l.prev|
    requires l.prev[i] == Null || 0 <= l.prev[i] < |l.next|
    requires 0 <= x < |l.next| && x != i
    ensures Unlink(l, i, pre).next[x] == if l.prev[i] != Null && x == l.prev[i] then l.next[i] else l.next[x]
    ensures Unlink(l, i, pre).prev[x] == if l.next[i] != Null && x == l.next[i] then l.prev[i] else l.prev[x]
  {
  }

  /** After unlinking, one remaining entry of some bucket still has the right neighbours. */
  lemma UnlinkEntry(l: Links, y: Layout, n: nat, c: nat, i: int, pre: int, b: int, k: int)
    requires Consistent(l, y, n, c) && 0 <= i < n && y.bucketOf[i] == pre != Null
    requires Indexed(Removed(y, i), n, c)
    requires 0 <= b < c && 0 <= k < |Removed(y, i).buckets[b]|
    ensures (PlacedNeighbours(l, y, n, c, i);
      var l', y' := Unlink(l, i, pre), Removed(y, i);
      && l'.next[y'.buckets[b][k]] == After(y'.buckets[b], k)
      && l'.prev[y'.buckets[b][k]] == Before(y'.buckets[b], k))
  {
    PlacedNeighbours(l, y, n, c, i);
    var x := Removed(y, i).buckets[b][k];
    UnlinkAt(l, i, pre, x);
    if b == pre {
      UnlinkEntryInBucket(l, y, n, c, i, pre, k);
    } else {
      assert Removed(y, i).buckets[b] == y.buckets[b];
      assert y.bucketOf[x] == b;
    }
  }

  /** Each entry of s is linked to its neighbours in s. */
  ghost predicate ListLinked(s: seq<int>, next: seq<int>, prev: seq<int>)
  {
    forall m | 0 <= m < |s| ::
      && 0 <= s[m] < |next| && 0 <= s[m] < |prev|
      && next[s[m]] == After(s, m) && prev[s[m]] == Before(s, m)
  }

  ghost predicate Distinct(s: seq<int>)
  {
    forall m1, m2 | 0 <= m1 < |s| && 0 <= m2 < |s| && s[m1] == s[m2] :: m1 == m2
  }

  /**
   * Unlinking s[k0] from a linked list s: the remaining entries, read through the
   * rewired links, are linked to their neighbours in s without s[k0].
   */
  lemma UnlinkFromList(s: seq<int>, k0: int, next: seq<int>, prev: seq<int>, k: int)
    requires 0 <= k0 < |s| && 0 <= k < |s| - 1
    requires ListLinked(s, next, prev) && Distinct(s)
    requires forall m | 0 <= m < |s| :: s[m] != Null
    ensures var s', nx, pv := s[..k0] + s[k0 + 1..], next[s[k0]], prev[s[k0]];
      && (if pv != Null && s'[k] == pv then nx else next[s'[k]]) == After(s', k)
      && (if nx != Null && s'[k] == nx then pv else prev[s'[k]]) == Before(s', k)
  {
    if k < k0 {
      assert k0 + 1 < |s| ==> s[k] != s[k0 + 1];
      assert k + 1 < k0 ==> s[k] != s[k0 - 1];
      UnlinkBefore(s, k0, next, prev, k);
    } else {
      assert k0 > 0 ==> s[k + 1] != s[k0 - 1];
      assert k > k0 ==> s[k + 1] != s[k0 + 1];
      UnlinkAfter(s, k0, next, prev, k);
    }
  }

  /** UnlinkFromList for an entry before the removed one. */
  lemma UnlinkBefore(s: seq<int>, k0: int, next: seq<int>, prev: seq<int>, k: int)
    requires 0 <= k < k0 < |s|
    requires ListLinked(s, next, prev)
    requires forall m | 0 <= m < |s| :: s[m] != Null
    requires k0 + 1 < |s| ==> s[k] != s[k0 + 1]
    requires k + 1 < k0 ==> s[k] != s[k0 - 1]
    ensures var s', nx, pv := s[..k0] + s[k0 + 1..], next[s[k0]], prev[s[k0]];
      && (if pv != Null && s'[k] == pv then nx else next[s'[k]]) == After(s', k)
      && (if nx != Null && s'[k] == nx then pv else prev[s'[k]]) == Before(s', k)
  {
    var s' := s[..k0] + s[k0 + 1..];
    assert s'[k] == s[k];
    assert next[s[k0]] == After(s, k0) && prev[s[k0]] == s[k0 - 1];
    assert next[s[k]] == s[k + 1] && prev[s[k]] == Before(s, k);
    if k + 1 < k0 {
      assert s'[k + 1] == s[k + 1];
    } else if k0 + 1 < |s| {
      assert s'[k + 1] == s[k0 + 1];
    }
    if k > 0 {
      assert s'[k - 1] == s[k - 1];
    }
  }

  /** UnlinkFromList for an entry after the removed one. */
  lemma UnlinkAfter(s: seq<int>, k0: int, next: seq<int>, prev: seq<int>, k: int)
    requires 0 <= k0 <= k < |s| - 1
    requires ListLinked(s, next, prev)
    requires forall m | 0 <= m < |s| :: s[m] != Null
    requires k0 > 0 ==> s[k + 1] != s[k0 - 1]
    requires k > k0 ==> s[k + 1] != s[k0 + 1]
    ensures var s', nx, pv := s[..k0] + s[k0 + 1..], next[s[k0]], prev[s[k0]];
      && (if pv != Null && s'[k] == pv then nx else next[s'[k]]) == After(s', k)
      && (if nx != Null && s'[k] == nx then pv else prev[s'[k]]) == Before(s', k)
  {
    var s' := s[..k0] + s[k0 + 1..];
    assert s'[k] == s[k + 1];
    assert next[s[k0]] == s[k0 + 1] && prev[s[k0]] == Before(s, k0);
    assert next[s[k + 1]] == After(s, k + 1) && prev[s[k + 1]] == s[k];
    if k + 1 < |s'| {
      assert s'[k + 1] == s[k + 2];
    }
    if k > k0 {
      assert s'[k - 1] == s[k];
    } else if k0 > 0 {
      assert s'[k - 1] == s[k0 - 1];
    }
  }

  /** The case of UnlinkEntry for the bucket that i leaves. */
  lemma UnlinkEntryInBucket(l: Links, y: Layout, n: nat, c: nat, i: int, pre: int, k: int)
    requires Consistent(l, y, n, c) && 0 <= i < n && y.bucketOf[i] == pre != Null
    requires 0 <= k < |Removed(y, i).buckets[pre]|
    ensures var s', x := Removed(y, i).buckets[pre], Removed(y, i).buckets[pre][k];
      && 0 <= x < n
      && (if l.prev[i] != Null && x == l.prev[i] then l.next[i] else l.next[x]) == After(s', k)
      && (if l.next[i] != Null && x == l.next[i] then l.prev[i] else l.prev[x]) == Before(s', k)
  {
    var s, s', k0 := RemovedBucket(y, i);
    assert s[k0] == i;
    BucketIsList(l, y, n, c, pre);
    UnlinkFromList(s, k0, l.next, l.prev, k);
    if k < k0 {
      assert s'[k] == s[k];
    } else {
      assert s'[k] == s[k + 1];
    }
  }

  /** One bucket of a well-formed arena is a linked list of distinct nodes. */
  lemma BucketIsList(l: Links, y: Layout, n: nat, c: nat, b: int)
    requires Consistent(l, y, n, c) && 0 <= b < c
    ensures ListLinked(y.buckets[b], l.next, l.prev) && Distinct(y.buckets[b])
    ensures forall m | 0 <= m < |y.buckets[b]| :: 0 <= y.buckets[b][m] < n
  {
    var s := y.buckets[b];
    forall m1, m2 | 0 <= m1 < |s| && 0 <= m2 < |s| && s[m1] == s[m2] ensures m1 == m2 {
      assert y.slot[s[m1]] == m1 && y.slot[s[m2]] == m2;
    }
  }

  lemma UnlinkKeepsHeads(l: Links, y: Layout, n: nat, c: nat, i: int, pre: int)
    requires Consistent(l, y, n, c) && 0 <= i < n && y.bucketOf[i] == pre != Null
    ensures (PlacedNeighbours(l, y, n, c, i);
      forall b | 0 <= b < c :: Unlink(l, i, pre).heads[b] == HeadOf(Removed(y, i).buckets[b]))
  {
    PlacedNeighbours(l, y, n, c, i);
    var s, s', k0 := RemovedBucket(y, i);
    assert s[k0] == i;
    if k0 == 0 && s' != [] {
      assert s'[0] == s[1];
    } else if k0 > 0 {
      assert s'[0] == s[0];
    }
  }

  lemma UnlinkKeepsDetached(l: Links, y: Layout, n: nat, c: nat, i: int, pre: int)
    requires Consistent(l, y, n, c) && 0 <= i < n && y.bucketOf[i] == pre != Null
    ensures (PlacedNeighbours(l, y, n, c, i);
      forall x | 0 <= x < n && Removed(y, i).bucketOf[x] == Null ::
        Unlink(l, i, pre).next[x] == Null && Unlink(l, i, pre).prev[x] == Null)
  {
    PlacedNeighbours(l, y, n, c, i);
    forall x | 0 <= x < n && Removed(y, i).bucketOf[x] == Null
      ensures Unlink(l, i, pre).next[x] == Null && Unlink(l, i, pre).prev[x] == Null
    {
      if x != i {
        UnlinkAt(l, i, pre, x);
      }
    }
  }

  lemma UnlinkKeepsLinked(l: Links, y: Layout, n: nat, c: nat, i: int, pre: int)
    requires Consistent(l, y, n, c) && 0 <= i < n && y.bucketOf[i] == pre != Null
    ensures Indexed(Removed(y, i), n, c)
    ensures (PlacedNeighbours(l, y, n, c, i); Linked(Unlink(l, i, pre), Removed(y, i), n, c))
  {
    PlacedNeighbours(l, y, n, c, i);
    UnlinkKeepsIndexed(y, n, c, i);
    var y' := Removed(y, i);
    var l' := Unlink(l, i, pre);
    forall b, k | 0 <= b < c && 0 <= k < |y'.buckets[b]|
      ensures l'.next[y'.buckets[b][k]] == After(y'.buckets[b], k)
      ensures l'.prev[y'.buckets[b][k]] == Before(y'.buckets[b], k)
    {
      UnlinkEntry(l, y, n, c, i, pre, b, k);
    }
    UnlinkKeepsHeads(l, y, n, c, i, pre);
    UnlinkKeepsDetached(l, y, n, c, i, pre);
  }

  /** Unlinking keeps the arena well formed, with i in no bucket. */
  lemma UnlinkKeepsConsistent(l: Links, y: Layout, n: nat, c: nat, i: int, pre: int)
    requires Consistent(l, y, n, c) && 0 <= i < n && y.bucketOf[i] == pre != Null
    ensures (PlacedNeighbours(l, y, n, c, i); Consistent(Unlink(l, i, pre), Removed(y, i), n, c))
  {
    PlacedNeighbours(l, y, n, c, i);
    UnlinkKeepsLinked(l, y, n, c, i, pre);
    var s, s', k0 := RemovedBucket(y, i);
    TotalUpdate(y.buckets, pre, s');
    CountPlacedUpdate(y.bucketOf, i, Null);
  }

  // ---------------------------------------------------------------------------
  // Prepending a node to a bucket

  /**
   * The second half of newUpdateSegment, and one step of distribute: i's next becomes
   * the old head of b, the old head's prev becomes i, and i becomes the head of b. The
   * source also sets i's prev to null; here i's prev is left as it is, since in both
   * callers it is null already (Unlink cleared it, or the node was never linked).
   */
  function Prepend(l: Links, i: int, b: int): (r: Links)
    requires |l.next| == |l.prev| && 0 <= i < |l.next| && 0 <= b < |l.heads|
    requires l.heads[b] == Null || 0 <= l.heads[b] < |l.prev|
  {
    var h := l.heads[b];
    Links(l.next[i := h], if h != Null then l.prev[h := i] else l.prev, l.heads[b := i])
  }

  /** The layout with node i added in front of bucket b. */
  function Added(y: Layout, i: int, b: int): (r: Layout)
    requires 0 <= i < |y.bucketOf| && |y.slot| == |y.bucketOf| && 0 <= b < |y.buckets|
  {
    Layout(
      y.buckets[b := [i] + y.buckets[b]],
      y.bucketOf[i := b],
      seq(|y.slot|, x requires 0 <= x < |y.slot| =>
        if x == i then 0 else if y.bucketOf[x] == b then y.slot[x] + 1 else y.slot[x]))
  }

  lemma PrependKeepsIndexed(y: Layout, n: nat, c: nat, i: int, b0: int)
    requires Indexed(y, n, c) && 0 <= i < n && y.bucketOf[i] == Null && 0 <= b0 < c
    ensures Indexed(Added(y, i, b0), n, c)
  {
    var y' := Added(y, i, b0);
    forall b, k | 0 <= b < c && 0 <= k < |y'.buckets[b]|
      ensures 0 <= y'.buckets[b][k] < n
      ensures y'.bucketOf[y'.buckets[b][k]] == b && y'.slot[y'.buckets[b][k]] == k
    {
      if b == b0 && k > 0 {
        assert y'.buckets[b][k] == y.buckets[b][k - 1];
      } else if b != b0 {
        assert y'.buckets[b] == y.buckets[b];
      }
    }
    forall x | 0 <= x < n && y'.bucketOf[x] != Null
      ensures 0 <= y'.bucketOf[x] < c
      ensures 0 <= y'.slot[x] < |y'.buckets[y'.bucketOf[x]]|
      ensures y'.buckets[y'.bucketOf[x]][y'.slot[x]] == x
    {
      if x != i {
        assert y.buckets[y.bucketOf[x]][y.slot[x]] == x;
      }
    }
  }

  /** The links of a node after Prepend. */
  lemma PrependAt(l: Links, i: int, b: int, x: int)
    requires |l.next| == |l.prev| && 0 <= i < |l.next| && 0 <= b < |l.heads|
    requires l.heads[b] == Null || 0 <= l.heads[b] < |l.prev|
    requires 0 <= x < |l.next|
    ensures Prepend(l, i, b).next[x] == if x == i then l.heads[b] else l.next[x]
    ensures Prepend(l, i, b).prev[x] == if l.heads[b] != Null && x == l.heads[b] then i else l.prev[x]
  {
  }

  /** After prepending, one entry of some bucket has the right neighbours. */
  lemma PrependEntry(l: Links, y: Layout, n: nat, c: nat, i: int, b0: int, b: int, k: int)
    requires Consistent(l, y, n, c) && 0 <= i < n && y.bucketOf[i] == Null && 0 <= b0 < c
    requires Indexed(Added(y, i, b0), n, c)
    requires 0 <= b < c && 0 <= k < |Added(y, i, b0).buckets[b]|
    ensures (HeadIsPlaced(l, y, n, c, b0);
      var l', y' := Prepend(l, i, b0), Added(y, i, b0);
      && l'.next[y'.buckets[b][k]] == After(y'.buckets[b], k)
      && l'.prev[y'.buckets[b][k]] == Before(y'.buckets[b], k))
  {
    HeadIsPlaced(l, y, n, c, b0);
    var y' := Added(y, i, b0);
    var h := l.heads[b0];
    var x := y'.buckets[b][k];
    PrependAt(l, i, b0, x);
    if b == b0 {
      var s := y.buckets[b0];
      assert y'.buckets[b] == [i] + s;
      if k == 0 {
        assert x == i && h != i;
        assert l.prev[i] == Null;
      } else {
        assert x == s[k - 1] && x != i;
        assert l.next[x] == After(s, k - 1) && l.prev[x] == Before(s, k - 1);
        assert After(y'.buckets[b], k) == After(s, k - 1);
        if k == 1 {
          assert x == h;
        } else {
          assert y.slot[x] == k - 1 && y.slot[h] == 0;
          assert x != h;
          assert Before(y'.buckets[b], k) == Before(s, k - 1);
        }
      }
    } else {
      assert y'.buckets[b] == y.buckets[b];
      assert y.bucketOf[x] == b;
      assert x != i && x != h;
    }
  }

  lemma PrependKeepsDetached(l: Links, y: Layout, n: nat, c: nat, i: int, b0: int)
    requires Consistent(l, y, n, c) && 0 <= i < n && y.bucketOf[i] == Null && 0 <= b0 < c
    ensures (HeadIsPlaced(l, y, n, c, b0);
      forall x | 0 <= x < n && Added(y, i, b0).bucketOf[x] == Null ::
        Prepend(l, i, b0).next[x] == Null && Prepend(l, i, b0).prev[x] == Null)
  {
    HeadIsPlaced(l, y, n, c, b0);
    forall x | 0 <= x < n && Added(y, i, b0).bucketOf[x] == Null
      ensures Prepend(l, i, b0).next[x] == Null && Prepend(l, i, b0).prev[x] == Null
    {
      PrependAt(l, i, b0, x);
    }
  }

  lemma PrependKeepsLinked(l: Links, y: Layout, n: nat, c: nat, i: int, b0: int)
    requires Consistent(l, y, n, c) && 0 <= i < n && y.bucketOf[i] == Null && 0 <= b0 < c
    ensures Indexed(Added(y, i, b0), n, c)
    ensures (HeadIsPlaced(l, y, n, c, b0); Linked(Prepend(l, i, b0), Added(y, i, b0), n, c))
  {
    HeadIsPlaced(l, y, n, c, b0);
    PrependKeepsIndexed(y, n, c, i, b0);
    var y' := Added(y, i, b0);
    var l' := Prepend(l, i, b0);
    forall b, k | 0 <= b < c && 0 <= k < |y'.buckets[b]|
      ensures l'.next[y'.buckets[b][k]] == After(y'.buckets[b], k)
      ensures l'.prev[y'.buckets[b][k]] == Before(y'.buckets[b], k)
    {
      PrependEntry(l, y, n, c, i, b0, b, k);
    }
    PrependKeepsDetached(l, y, n, c, i, b0);
  }

  /** Prepending an unplaced node keeps the arena well formed, with i at the head of b. */
  lemma PrependKeepsConsistent(l: Links, y: Layout, n: nat, c: nat, i: int, b0: int)
    requires Consistent(l, y, n, c) && 0 <= i < n && y.bucketOf[i] == Null && 0 <= b0 < c
    ensures (HeadIsPlaced(l, y, n, c, b0); Consistent(Prepend(l, i, b0), Added(y, i, b0), n, c))
  {
    HeadIsPlaced(l, y, n, c, b0);
    PrependKeepsLinked(l, y, n, c, i, b0);
    TotalUpdate(y.buckets, b0, [i] + y.buckets[b0]);
    CountPlacedUpdate(y.bucketOf, i, b0);
  }
}
