/** The quad tree of quad_tree.cpp as a value: what build_tree makes of a
    slice of points, what get_buckets puts in each bucket, what
    compute_bounds returns, what traverse_tree_by_bounds delivers and what
    size_recursive counts, and the lemmas that relate them. */
module TreeSpec {
  import opened Geometry
  import opened QuadKey
  import opened Msb

  /** The normalised 32-bit integer coordinates that compute_quad_key
      computes from a point's float coordinates and the global bounds. */
  datatype Cell = Cell(x: bv64, y: bv64)

  /** compute_quad_key(p, depth, global) for the depths it accepts (it
      throws past the maximum depth, which no caller here reaches), over a
      normalisation of float coordinates against the global bounds. */
  function QuadKeyOf(norm: (Point, Rect) -> Cell, global: Rect): (Point, bv8) -> bv64
  {
    (p: Point, depth: bv8) =>
      if depth <= MaxDepth then PointKey(norm(p, global).x, norm(p, global).y, depth) else 0
  }

  /** What a tree is built with: the key of a point at a depth, and
      max_block_size. */
  datatype Config = Config(key: (Point, bv8) -> bv64, maxBlock: nat)

  /** The configuration quad_tree builds with. */
  function MakeConfig(norm: (Point, Rect) -> Cell, global: Rect, maxBlock: nat): Config
  {
    Config(QuadKeyOf(norm, global), maxBlock)
  }

  /** MAX_BLOCK_SIZE, the default max_block_size. */
  const DefaultMaxBlock: nat := 1000

  /** MIN_BLOCK_SIZE, the default min_block_size, which nothing reads. */
  const DefaultMinBlock: nat := 10

  /** std::numeric_limits<float>::max(), the start of compute_bounds. */
  const FltMax: real := 340282346638528859811704183484516925440.0

  /** One level down from depth d: keys are valid and the deeper key shifted
      right by two is the key at d. */
  ghost predicate StepLaw(c: Config, d: bv8)
  {
    forall p: Point :: IsValid(c.key(p, d)) && IsValid(c.key(p, d + 1)) && c.key(p, d + 1) >> 2 == c.key(p, d)
  }

  /** The facts about keys that building relies on: the root key is 1 and
      every level below the root refines the one above. */
  ghost predicate KeyLaws(c: Config)
  {
    (forall p: Point :: c.key(p, 0) == 1) &&
    (forall d: bv8 :: d < MaxDepth ==> StepLaw(c, d))
  }

  /** compute_quad_key obeys the key laws, whatever the normalisation. */
  lemma QuadKeyLaws(norm: (Point, Rect) -> Cell, global: Rect, maxBlock: nat)
    ensures KeyLaws(MakeConfig(norm, global, maxBlock))
  {
    var c := MakeConfig(norm, global, maxBlock);
    forall p: Point ensures c.key(p, 0) == 1 {
      var n := norm(p, global);
      PointKeyAtRoot(n.x, n.y);
    }
    forall d: bv8 | d < MaxDepth ensures StepLaw(c, d) {
      forall p: Point
        ensures IsValid(c.key(p, d)) && IsValid(c.key(p, d + 1)) && c.key(p, d + 1) >> 2 == c.key(p, d)
      {
        var n := norm(p, global);
        PointKeyStep(n.x, n.y, d);
        PointKeyValid(n.x, n.y, d + 1);
        PointKeyValid(n.x, n.y, d);
      }
    }
  }

  /** Every point of the slice has the key at the depth. */
  ghost predicate AllKeyed(c: Config, pts: seq<Point>, depth: bv8, key: bv64)
    requires depth <= MaxDepth
  {
    forall i :: 0 <= i < |pts| ==> c.key(pts[i], depth) == key
  }

  /** One level below the key of a point at depth, its deeper key is the
      child of that key in exactly one quadrant. */
  lemma KeyQuadrant(c: Config, p: Point, depth: bv8)
    requires StepLaw(c, depth)
    ensures var k1, k0 := c.key(p, depth + 1), c.key(p, depth);
            var in0, in1, in2, in3 := k1 == QuadKey.Child(k0, 0), k1 == QuadKey.Child(k0, 1),
                                      k1 == QuadKey.Child(k0, 2), k1 == QuadKey.Child(k0, 3);
            (in0 && !in1 && !in2 && !in3) || (!in0 && in1 && !in2 && !in3) ||
            (!in0 && !in1 && in2 && !in3) || (!in0 && !in1 && !in2 && in3)
  {
    OneChild(c.key(p, depth + 1), c.key(p, depth));
  }

  /** get_buckets' index of a point, its key one level down minus the first
      child of its key, is the quadrant of the child it lies in. */
  lemma KeyIndex(c: Config, p: Point, depth: bv8)
    requires StepLaw(c, depth)
    ensures c.key(p, depth + 1) - QuadKey.Child(c.key(p, depth), 0) < 4
    ensures c.key(p, depth + 1) == QuadKey.Child(c.key(p, depth), c.key(p, depth + 1) - QuadKey.Child(c.key(p, depth), 0))
  {
    ChildIndex(c.key(p, depth + 1), c.key(p, depth));
  }

  /** KeyIndex for a point of a slice that shares the key at depth. */
  lemma KeyIndexOf(c: Config, p: Point, depth: bv8, key: bv64)
    requires KeyLaws(c) && depth < MaxDepth && c.key(p, depth) == key
    ensures c.key(p, depth + 1) - QuadKey.Child(key, 0) < 4
  {
    assert StepLaw(c, depth);
    KeyIndex(c, p, depth);
  }

  /** KeyQuadrant for a point of a slice that shares the key at depth. */
  lemma OneQuadrant(c: Config, p: Point, depth: bv8, key: bv64)
    requires KeyLaws(c) && depth < MaxDepth && c.key(p, depth) == key
    ensures var k1 := c.key(p, depth + 1);
            var in0, in1, in2, in3 := k1 == QuadKey.Child(key, 0), k1 == QuadKey.Child(key, 1),
                                      k1 == QuadKey.Child(key, 2), k1 == QuadKey.Child(key, 3);
            (in0 && !in1 && !in2 && !in3) || (!in0 && in1 && !in2 && !in3) ||
            (!in0 && !in1 && in2 && !in3) || (!in0 && !in1 && !in2 && in3)
  {
    assert StepLaw(c, depth);
    KeyQuadrant(c, p, depth);
  }

  /** The bucket of the child key child: the points of the slice whose key
      one level down is child, in their order in the slice. */
  function Bucket(c: Config, pts: seq<Point>, depth: bv8, child: bv64): seq<Point>
    requires depth < MaxDepth
  {
    if |pts| == 0 then []
    else
      var p := pts[|pts| - 1];
      Bucket(c, pts[..|pts| - 1], depth, child) + (if c.key(p, depth + 1) == child then [p] else [])
  }

  /** The points of a bucket all carry its child key one level down. */
  lemma {:induction false} BucketKeyed(c: Config, pts: seq<Point>, depth: bv8, child: bv64)
    requires depth < MaxDepth
    ensures AllKeyed(c, Bucket(c, pts, depth, child), depth + 1, child)
  {
    if |pts| > 0 {
      BucketKeyed(c, pts[..|pts| - 1], depth, child);
    }
  }

  /** Appending a point to a slice appends it to the bucket of its key. */
  lemma BucketLast(c: Config, pts: seq<Point>, depth: bv8, child: bv64)
    requires depth < MaxDepth && |pts| > 0
    ensures multiset(Bucket(c, pts, depth, child))
         == multiset(Bucket(c, pts[..|pts| - 1], depth, child))
          + (if c.key(pts[|pts| - 1], depth + 1) == child then multiset{pts[|pts| - 1]} else multiset{})
  {}

  /** Adding one element to exactly one of four parts of a multiset. */
  lemma AddToOne<T>(m: multiset<T>, b0: multiset<T>, b1: multiset<T>, b2: multiset<T>, b3: multiset<T>,
                    x: T, in0: bool, in1: bool, in2: bool, in3: bool)
    requires m == b0 + b1 + b2 + b3
    requires (in0 && !in1 && !in2 && !in3) || (!in0 && in1 && !in2 && !in3) ||
             (!in0 && !in1 && in2 && !in3) || (!in0 && !in1 && !in2 && in3)
    ensures m + multiset{x} == (b0 + (if in0 then multiset{x} else multiset{}))
                             + (b1 + (if in1 then multiset{x} else multiset{}))
                             + (b2 + (if in2 then multiset{x} else multiset{}))
                             + (b3 + (if in3 then multiset{x} else multiset{}))
  {}

  /** Above the deepest level, compute_children accepts every point's key. */
  lemma KeyHasChildren(c: Config, p: Point, depth: bv8)
    requires KeyLaws(c) && depth < MaxDepth
    ensures ComputeChildren(c.key(p, depth)).Ok?
  {
    assert StepLaw(c, depth);
    HasChildren(c.key(p, depth + 1), c.key(p, depth));
  }

  /** A point appended to a slice is appended to the bucket of its key one
      level down, and to no other. */
  lemma BucketSnoc(c: Config, s: seq<Point>, p: Point, depth: bv8, child: bv64)
    requires depth < MaxDepth
    ensures Bucket(c, s + [p], depth, child)
         == Bucket(c, s, depth, child) + (if c.key(p, depth + 1) == child then [p] else [])
  {
    assert (s + [p])[..|s|] == s;
  }

  /** One level below the key of a point, its deeper key is the child in
      quadrant q exactly when q is its offset from the first child. */
  lemma KeySlot(c: Config, p: Point, depth: bv8, q: bv64)
    requires StepLaw(c, depth) && q < 4
    ensures c.key(p, depth + 1) == QuadKey.Child(c.key(p, depth), q)
        <==> q == c.key(p, depth + 1) - QuadKey.Child(c.key(p, depth), 0)
  {
    ChildSlot(c.key(p, depth + 1), c.key(p, depth), q);
  }

  /** One step of SlotBucket: appending a point. */
  lemma SlotSnoc(c: Config, s: seq<Point>, p: Point, depth: bv8, q: bv64)
    requires depth < MaxDepth && StepLaw(c, depth) && q < 4
    ensures Bucket(c, s + [p], depth, QuadKey.Child(c.key(p, depth), q))
         == Bucket(c, s, depth, QuadKey.Child(c.key(p, depth), q))
          + (if q == c.key(p, depth + 1) - QuadKey.Child(c.key(p, depth), 0) then [p] else [])
  {
    BucketSnoc(c, s, p, depth, QuadKey.Child(c.key(p, depth), q));
    KeySlot(c, p, depth, q);
  }

  /** get_buckets' step: a point of key key at depth goes to the bucket of
      the quadrant of its index, and to no other. */
  lemma GrowBucket(c: Config, s: seq<Point>, p: Point, depth: bv8, key: bv64, q: bv64)
    requires KeyLaws(c) && depth < MaxDepth && c.key(p, depth) == key && q < 4
    ensures Bucket(c, s + [p], depth, QuadKey.Child(key, q))
         == Bucket(c, s, depth, QuadKey.Child(key, q))
          + (if q == c.key(p, depth + 1) - QuadKey.Child(key, 0) then [p] else [])
  {
    assert StepLaw(c, depth);
    SlotSnoc(c, s, p, depth, q);
  }

  /** get_buckets' result: the four buckets of a slice whose key at depth is
      key, in ChildId order. */
  function Buckets(c: Config, pts: seq<Point>, depth: bv8, key: bv64): seq<seq<Point>>
    requires depth < MaxDepth
  {
    [Bucket(c, pts, depth, QuadKey.Child(key, 0)), Bucket(c, pts, depth, QuadKey.Child(key, 1)),
     Bucket(c, pts, depth, QuadKey.Child(key, 2)), Bucket(c, pts, depth, QuadKey.Child(key, 3))]
  }

  /** Appending x to part i of four parts, the others unchanged. */
  lemma AppendToPart<T>(b0: seq<T>, b1: seq<T>, b2: seq<T>, b3: seq<T>,
                        g0: seq<T>, g1: seq<T>, g2: seq<T>, g3: seq<T>, x: T, i: int)
    requires 0 <= i < 4
    requires g0 == b0 + (if i == 0 then [x] else [])
    requires g1 == b1 + (if i == 1 then [x] else [])
    requires g2 == b2 + (if i == 2 then [x] else [])
    requires g3 == b3 + (if i == 3 then [x] else [])
    ensures [g0, g1, g2, g3] == [b0, b1, b2, b3][i := [b0, b1, b2, b3][i] + [x]]
  {
    var parts := [b0, b1, b2, b3];
    var updated := parts[i := parts[i] + [x]];
    assert forall q :: 0 <= q < 4 ==> [g0, g1, g2, g3][q] == updated[q];
  }

  /** The offset of a child key from the first child key as an index into
      the buckets, for offsets below 4 (larger ones do not occur). */
  function Offset(childKey: bv64, minId: bv64): int
  {
    var d := childKey - minId;
    if d == 0 then 0 else if d == 1 then 1 else if d == 2 then 2 else 3
  }

  /** Offset is the difference of the keys. */
  lemma OffsetIsDifference(childKey: bv64, minId: bv64)
    requires childKey - minId < 4
    ensures Offset(childKey, minId) == (childKey - minId) as int
  {}

  /** A slot as a key digit and as an index. */
  predicate SlotPair(q: bv64, qi: int)
  {
    (q == 0 && qi == 0) || (q == 1 && qi == 1) || (q == 2 && qi == 2) || (q == 3 && qi == 3)
  }

  /** A small offset names the slot q exactly when it is q's index. */
  lemma OffsetSlot(childKey: bv64, minId: bv64, q: bv64, qi: int)
    requires childKey - minId < 4 && SlotPair(q, qi)
    ensures (q == childKey - minId) == (qi == Offset(childKey, minId))
    ensures 0 <= Offset(childKey, minId) < 4
  {}

  /** get_buckets' step for one bucket: the point is appended to the
      bucket of slot q exactly when q is its offset. */
  lemma BucketStepAt(c: Config, s: seq<Point>, p: Point, depth: bv8, key: bv64, i: int, q: bv64, qi: int)
    requires KeyLaws(c) && depth < MaxDepth && c.key(p, depth) == key && SlotPair(q, qi)
    requires i == Offset(c.key(p, depth + 1), QuadKey.Child(key, 0))
    ensures 0 <= i < 4
    ensures Bucket(c, s + [p], depth, QuadKey.Child(key, q))
         == Bucket(c, s, depth, QuadKey.Child(key, q)) + (if i == qi then [p] else [])
  {
    KeyIndexOf(c, p, depth, key);
    OffsetSlot(c.key(p, depth + 1), QuadKey.Child(key, 0), q, qi);
    GrowBucket(c, s, p, depth, key, q);
  }

  /** get_buckets' loop step: a point of key key at depth is appended to
      the bucket at its index, and the other buckets stay as they are. */
  lemma BucketsSnocAt(c: Config, s: seq<Point>, p: Point, depth: bv8, key: bv64, i: int)
    requires KeyLaws(c) && depth < MaxDepth && c.key(p, depth) == key
    requires i == Offset(c.key(p, depth + 1), QuadKey.Child(key, 0))
    ensures 0 <= i < 4
    ensures Buckets(c, s + [p], depth, key) == Buckets(c, s, depth, key)[i := Buckets(c, s, depth, key)[i] + [p]]
  {
    BucketStepAt(c, s, p, depth, key, i, 0, 0);
    BucketStepAt(c, s, p, depth, key, i, 1, 1);
    BucketStepAt(c, s, p, depth, key, i, 2, 2);
    BucketStepAt(c, s, p, depth, key, i, 3, 3);
    AppendToPart(Bucket(c, s, depth, QuadKey.Child(key, 0)), Bucket(c, s, depth, QuadKey.Child(key, 1)),
                 Bucket(c, s, depth, QuadKey.Child(key, 2)), Bucket(c, s, depth, QuadKey.Child(key, 3)),
                 Bucket(c, s + [p], depth, QuadKey.Child(key, 0)), Bucket(c, s + [p], depth, QuadKey.Child(key, 1)),
                 Bucket(c, s + [p], depth, QuadKey.Child(key, 2)), Bucket(c, s + [p], depth, QuadKey.Child(key, 3)),
                 p, i);
  }

  /** BucketsSnocAt for a point of a slice that shares the key key, its
      index computed as get_buckets does from its key one level down and
      the first child of key. */
  lemma BucketsSnoc(c: Config, s: seq<Point>, p: Point, depth: bv8, key: bv64, childKey: bv64, minId: bv64)
    requires KeyLaws(c) && depth < MaxDepth && c.key(p, depth) == key
    requires childKey == c.key(p, depth + 1) && minId == QuadKey.Child(key, 0)
    ensures childKey - minId < 4
    ensures var i := Offset(childKey, minId);
            Buckets(c, s + [p], depth, key) == Buckets(c, s, depth, key)[i := Buckets(c, s, depth, key)[i] + [p]]
  {
    KeyIndexOf(c, p, depth, key);
    BucketsSnocAt(c, s, p, depth, key, Offset(childKey, minId));
  }

  /** The four buckets of a slice that shares the key at depth hold every
      point of the slice exactly as often as the slice does, so their sizes
      add up to the size of the slice. */
  lemma {:induction false} BucketsPartition(c: Config, pts: seq<Point>, depth: bv8, key: bv64)
    requires KeyLaws(c) && depth < MaxDepth && AllKeyed(c, pts, depth, key)
    ensures multiset(pts) == multiset(Bucket(c, pts, depth, QuadKey.Child(key, 0)))
                           + multiset(Bucket(c, pts, depth, QuadKey.Child(key, 1)))
                           + multiset(Bucket(c, pts, depth, QuadKey.Child(key, 2)))
                           + multiset(Bucket(c, pts, depth, QuadKey.Child(key, 3)))
  {
    if |pts| > 0 {
      var init := pts[..|pts| - 1];
      assert AllKeyed(c, init, depth, key) by {
        forall i | 0 <= i < |init| ensures c.key(init[i], depth) == key {
          assert init[i] == pts[i];
        }
      }
      BucketsPartition(c, init, depth, key);
      OneQuadrant(c, pts[|pts| - 1], depth, key);
      BucketLast(c, pts, depth, QuadKey.Child(key, 0));
      BucketLast(c, pts, depth, QuadKey.Child(key, 1));
      BucketLast(c, pts, depth, QuadKey.Child(key, 2));
      BucketLast(c, pts, depth, QuadKey.Child(key, 3));
      AddToOne(multiset(init),
               multiset(Bucket(c, init, depth, QuadKey.Child(key, 0))),
               multiset(Bucket(c, init, depth, QuadKey.Child(key, 1))),
               multiset(Bucket(c, init, depth, QuadKey.Child(key, 2))),
               multiset(Bucket(c, init, depth, QuadKey.Child(key, 3))),
               pts[|pts| - 1],
               c.key(pts[|pts| - 1], depth + 1) == QuadKey.Child(key, 0),
               c.key(pts[|pts| - 1], depth + 1) == QuadKey.Child(key, 1),
               c.key(pts[|pts| - 1], depth + 1) == QuadKey.Child(key, 2),
               c.key(pts[|pts| - 1], depth + 1) == QuadKey.Child(key, 3));
      assert pts == init + [pts[|pts| - 1]];
    }
  }

  /** A bucket is a part of its slice: each of its points is one of the
      slice's. */
  lemma {:induction false} BucketWithin(c: Config, pts: seq<Point>, depth: bv8, child: bv64)
    requires depth < MaxDepth
    ensures multiset(Bucket(c, pts, depth, child)) <= multiset(pts)
  {
    if |pts| > 0 {
      BucketWithin(c, pts[..|pts| - 1], depth, child);
      assert pts == pts[..|pts| - 1] + [pts[|pts| - 1]];
    }
  }

  /** The smaller of two coordinates. */
  function Min(a: real, b: real): real
  {
    if b < a then b else a
  }

  /** The larger of two coordinates. */
  function Max(a: real, b: real): real
  {
    if b > a then b else a
  }

  /** The running minima and maxima of compute_bounds over a slice, starting
      from +FLT_MAX and -FLT_MAX: (min_x, min_y, max_x, max_y). */
  function Extremes(pts: seq<Point>): Rect
  {
    if |pts| == 0 then Rect(FltMax, FltMax, -FltMax, -FltMax)
    else
      var e := Extremes(pts[..|pts| - 1]);
      var p := pts[|pts| - 1];
      Rect(Min(e.lx, p.x), Min(e.ly, p.y), Max(e.hx, p.x), Max(e.hy, p.y))
  }

  /** std::floor and std::ceil. */
  function Floor(v: real): real
  {
    v.Floor as real
  }

  function Ceil(v: real): real
  {
    -((-v).Floor as real)
  }

  /** compute_bounds: the floor of the minima and the ceiling of the maxima. */
  function BoundsOf(pts: seq<Point>): Rect
  {
    var e := Extremes(pts);
    Rect(Floor(e.lx), Floor(e.ly), Ceil(e.hx), Ceil(e.hy))
  }

  /** The running extremes enclose every point seen so far. */
  lemma {:induction false} ExtremesEnclose(pts: seq<Point>, i: nat)
    requires i < |pts|
    ensures IntersectPoint(pts[i], Extremes(pts))
  {
    if i < |pts| - 1 {
      ExtremesEnclose(pts[..|pts| - 1], i);
    }
  }

  /** compute_bounds encloses every point of the slice. */
  lemma BoundsEnclose(pts: seq<Point>, i: nat)
    requires i < |pts|
    ensures IntersectPoint(pts[i], BoundsOf(pts))
  {
    ExtremesEnclose(pts, i);
  }

  /** A point with finite float coordinates. */
  predicate Finite(p: Point)
  {
    -FltMax <= p.x <= FltMax && -FltMax <= p.y <= FltMax
  }

  /** The extremes of a non-empty slice of finite points are attained: the
      bounds are tight, each edge within one unit of a point. */
  lemma {:induction false} ExtremesAttained(pts: seq<Point>)
    requires |pts| > 0 && forall i :: 0 <= i < |pts| ==> Finite(pts[i])
    ensures exists i :: 0 <= i < |pts| && pts[i].x == Extremes(pts).lx
    ensures exists i :: 0 <= i < |pts| && pts[i].y == Extremes(pts).ly
    ensures exists i :: 0 <= i < |pts| && pts[i].x == Extremes(pts).hx
    ensures exists i :: 0 <= i < |pts| && pts[i].y == Extremes(pts).hy
  {
    var init := pts[..|pts| - 1];
    var last := |pts| - 1;
    if |init| > 0 {
      ExtremesAttained(init);
      var e := Extremes(init);
      forall j | 0 <= j < |init| ensures pts[j] == init[j] {}
      if e.lx <= pts[last].x { var j :| 0 <= j < |init| && init[j].x == e.lx; assert pts[j].x == e.lx; }
      if e.ly <= pts[last].y { var j :| 0 <= j < |init| && init[j].y == e.ly; assert pts[j].y == e.ly; }
      if e.hx >= pts[last].x { var j :| 0 <= j < |init| && init[j].x == e.hx; assert pts[j].x == e.hx; }
      if e.hy >= pts[last].y { var j :| 0 <= j < |init| && init[j].y == e.hy; assert pts[j].y == e.hy; }
    }
  }

  /** A node: its key, its bounds, the points it stores and its four child
      slots in ChildId order (LowerLeft, LowerRight, UpperLeft, UpperRight);
      Nil is an empty slot. */
  datatype Tree =
    | Nil
    | Node(key: bv64, bounds: Rect, points: seq<Point>, c0: Tree, c1: Tree, c2: Tree, c3: Tree)

  /** build_tree on a slice at a depth, into a node of the given key and
      bounds: a node with more than max_block_size points above the deepest
      level gets no points and a child in each slot whose bucket is not
      empty; any other node becomes a leaf that stores the slice. */
  function Build(c: Config, pts: seq<Point>, depth: bv8, key: bv64, bounds: Rect): Tree
    requires depth <= MaxDepth
    decreases MaxDepth - depth, 1
  {
    if |pts| > c.maxBlock && depth != MaxDepth then
      Node(key, bounds, [], Slot(c, pts, depth, key, 0), Slot(c, pts, depth, key, 1),
           Slot(c, pts, depth, key, 2), Slot(c, pts, depth, key, 3))
    else
      Node(key, bounds, pts, Nil, Nil, Nil, Nil)
  }

  /** The child slot q of an internal node: empty for an empty bucket, else
      the child node of the child key, bounded by compute_bounds of its
      bucket, built one level down. */
  function Slot(c: Config, pts: seq<Point>, depth: bv8, key: bv64, q: bv64): Tree
    requires depth < MaxDepth
    decreases MaxDepth - depth, 0
  {
    var child := QuadKey.Child(key, q);
    var b := Bucket(c, pts, depth, child);
    if |b| == 0 then Nil else Build(c, b, depth + 1, child, BoundsOf(b))
  }

  /** The points stored under a node, in the order the traversal visits
      them: a node with points is read as a leaf, any other node through its
      four slots in order. */
  function Contents(t: Tree): seq<Point>
  {
    match t
    case Nil => []
    case Node(_, _, pts, c0, c1, c2, c3) =>
      if |pts| > 0 then pts else Contents(c0) + Contents(c1) + Contents(c2) + Contents(c3)
  }

  /** size_recursive: the number of points the leaves under a node store. */
  function Size(t: Tree): nat
  {
    match t
    case Nil => 0
    case Node(_, _, pts, c0, c1, c2, c3) =>
      if |pts| > 0 then |pts| else Size(c0) + Size(c1) + Size(c2) + Size(c3)
  }

  /** The points of a sequence that intersect_point puts in a rectangle, in
      order. */
  function Within(s: seq<Point>, r: Rect): seq<Point>
  {
    if |s| == 0 then []
    else
      var p := s[|s| - 1];
      Within(s[..|s| - 1], r) + (if IntersectPoint(p, r) then [p] else [])
  }

  /** traverse_tree_by_bounds: the points handed to the callback, in order.
      A node whose bounds miss the query is skipped with everything below
      it; a leaf hands over each stored point inside the query; any other
      node is traversed through its slots in order. */
  function Traverse(t: Tree, query: Rect): seq<Point>
  {
    match t
    case Nil => []
    case Node(_, bounds, pts, c0, c1, c2, c3) =>
      if !Intersect(query, bounds) then []
      else if |pts| > 0 then Within(pts, query)
      else Traverse(c0, query) + Traverse(c1, query) + Traverse(c2, query) + Traverse(c3, query)
  }

  /** Every node's bounds enclose every point stored under it. */
  ghost predicate Enclosed(t: Tree)
  {
    match t
    case Nil => true
    case Node(_, bounds, _, c0, c1, c2, c3) =>
      (forall p :: p in Contents(t) ==> IntersectPoint(p, bounds)) &&
      Enclosed(c0) && Enclosed(c1) && Enclosed(c2) && Enclosed(c3)
  }

  /** size() counts exactly the stored points. */
  lemma {:induction false} SizeIsContents(t: Tree)
    ensures Size(t) == |Contents(t)|
  {
    match t
    case Nil =>
    case Node(_, _, _, c0, c1, c2, c3) =>
      SizeIsContents(c0);
      SizeIsContents(c1);
      SizeIsContents(c2);
      SizeIsContents(c3);
  }

  /** Filtering distributes over concatenation. */
  lemma {:induction false} WithinAppend(a: seq<Point>, b: seq<Point>, r: Rect)
    ensures Within(a + b, r) == Within(a, r) + Within(b, r)
  {
    if |b| > 0 {
      WithinAppend(a, b[..|b| - 1], r);
      assert (a + b)[..|a + b| - 1] == a + b[..|b| - 1];
      assert (a + b)[|a + b| - 1] == b[|b| - 1];
    } else {
      assert a + b == a;
    }
  }

  /** A point survives the filter as often as it occurs, if it is inside. */
  lemma {:induction false} WithinCount(s: seq<Point>, r: Rect, p: Point)
    ensures multiset(Within(s, r))[p] == if IntersectPoint(p, r) then multiset(s)[p] else 0
  {
    if |s| > 0 {
      WithinCount(s[..|s| - 1], r, p);
      assert s == s[..|s| - 1] + [s[|s| - 1]];
    }
  }

  /** Filtering two sequences with the same points gives the same points. */
  lemma WithinMultiset(a: seq<Point>, b: seq<Point>, r: Rect)
    requires multiset(a) == multiset(b)
    ensures multiset(Within(a, r)) == multiset(Within(b, r))
  {
    forall p ensures multiset(Within(a, r))[p] == multiset(Within(b, r))[p] {
      WithinCount(a, r, p);
      WithinCount(b, r, p);
    }
  }

  /** Nothing survives the filter when no point is inside. */
  lemma {:induction false} WithinNone(s: seq<Point>, r: Rect)
    requires forall p :: p in s ==> !IntersectPoint(p, r)
    ensures Within(s, r) == []
  {
    if |s| > 0 {
      assert s[|s| - 1] in s;
      forall p | p in s[..|s| - 1] ensures p in s {}
      WithinNone(s[..|s| - 1], r);
    }
  }

  /** Pruning by bounds never loses a match: when every node's bounds enclose
      its points, the traversal hands over exactly the stored points inside
      the query, each once, leaves in slot order and points in stored order. */
  lemma {:induction false} TraverseComplete(t: Tree, query: Rect)
    requires Enclosed(t)
    ensures Traverse(t, query) == Within(Contents(t), query)
  {
    match t
    case Nil =>
    case Node(_, bounds, pts, c0, c1, c2, c3) =>
      if !Intersect(query, bounds) {
        forall p | p in Contents(t) ensures !IntersectPoint(p, query) {
          if IntersectPoint(p, query) {
            SharedPointIntersects(p, query, bounds);
          }
        }
        WithinNone(Contents(t), query);
      } else if |pts| == 0 {
        TraverseComplete(c0, query);
        TraverseComplete(c1, query);
        TraverseComplete(c2, query);
        TraverseComplete(c3, query);
        WithinAppend(Contents(c0), Contents(c1), query);
        WithinAppend(Contents(c0) + Contents(c1), Contents(c2), query);
        WithinAppend(Contents(c0) + Contents(c1) + Contents(c2), Contents(c3), query);
      }
  }

  /** build_tree stores every point of its slice exactly as often as the
      slice holds it. */
  lemma {:induction false} BuildContents(c: Config, pts: seq<Point>, depth: bv8, key: bv64, bounds: Rect)
    requires KeyLaws(c) && depth <= MaxDepth && AllKeyed(c, pts, depth, key)
    ensures multiset(Contents(Build(c, pts, depth, key, bounds))) == multiset(pts)
    decreases MaxDepth - depth, 1
  {
    if |pts| > c.maxBlock && depth != MaxDepth {
      SlotContents(c, pts, depth, key, 0);
      SlotContents(c, pts, depth, key, 1);
      SlotContents(c, pts, depth, key, 2);
      SlotContents(c, pts, depth, key, 3);
      BucketsPartition(c, pts, depth, key);
    }
  }

  /** A child slot stores exactly the points of its bucket. */
  lemma {:induction false} SlotContents(c: Config, pts: seq<Point>, depth: bv8, key: bv64, q: bv64)
    requires KeyLaws(c) && depth < MaxDepth
    ensures multiset(Contents(Slot(c, pts, depth, key, q))) == multiset(Bucket(c, pts, depth, QuadKey.Child(key, q)))
    decreases MaxDepth - depth, 0
  {
    var child := QuadKey.Child(key, q);
    var b := Bucket(c, pts, depth, child);
    if |b| > 0 {
      BucketKeyed(c, pts, depth, child);
      BuildContents(c, b, depth + 1, child, BoundsOf(b));
    }
  }

  /** build_tree keeps the bounds of every node around its points, when the
      bounds it is given enclose its slice. */
  lemma {:induction false} BuildEnclosed(c: Config, pts: seq<Point>, depth: bv8, key: bv64, bounds: Rect)
    requires KeyLaws(c) && depth <= MaxDepth && AllKeyed(c, pts, depth, key)
    requires forall i :: 0 <= i < |pts| ==> IntersectPoint(pts[i], bounds)
    ensures Enclosed(Build(c, pts, depth, key, bounds))
    decreases MaxDepth - depth, 1
  {
    var t := Build(c, pts, depth, key, bounds);
    BuildContents(c, pts, depth, key, bounds);
    forall p | p in Contents(t) ensures IntersectPoint(p, bounds) {
      assert p in multiset(pts);
    }
    if |pts| > c.maxBlock && depth != MaxDepth {
      SlotEnclosed(c, pts, depth, key, 0);
      SlotEnclosed(c, pts, depth, key, 1);
      SlotEnclosed(c, pts, depth, key, 2);
      SlotEnclosed(c, pts, depth, key, 3);
    }
  }

  /** A child slot keeps its bounds around its points. */
  lemma {:induction false} SlotEnclosed(c: Config, pts: seq<Point>, depth: bv8, key: bv64, q: bv64)
    requires KeyLaws(c) && depth < MaxDepth
    ensures Enclosed(Slot(c, pts, depth, key, q))
    decreases MaxDepth - depth, 0
  {
    var child := QuadKey.Child(key, q);
    var b := Bucket(c, pts, depth, child);
    if |b| > 0 {
      BucketKeyed(c, pts, depth, child);
      forall i | 0 <= i < |b| ensures IntersectPoint(b[i], BoundsOf(b)) {
        BoundsEnclose(b, i);
      }
      BuildEnclosed(c, b, depth + 1, child, BoundsOf(b));
    }
  }

  /** The tree quad_tree builds over points: the root, of key 1 and bounded
      by compute_bounds of all the points, built with the global bounds
      compute_bounds gives. */
  function BuildRoot(norm: (Point, Rect) -> Cell, maxBlock: nat, pts: seq<Point>): Tree
  {
    var global := BoundsOf(pts);
    Build(MakeConfig(norm, global, maxBlock), pts, 0, 1, global)
  }

  /** A query of the built tree finds exactly the points inside the query,
      each as often as it was given, and size() is the number of points. */
  lemma QueryFindsAll(norm: (Point, Rect) -> Cell, maxBlock: nat, pts: seq<Point>, query: Rect)
    ensures multiset(Traverse(BuildRoot(norm, maxBlock, pts), query)) == multiset(Within(pts, query))
    ensures Size(BuildRoot(norm, maxBlock, pts)) == |pts|
  {
    var global := BoundsOf(pts);
    var c := MakeConfig(norm, global, maxBlock);
    var t := BuildRoot(norm, maxBlock, pts);
    QuadKeyLaws(norm, global, maxBlock);
    forall i | 0 <= i < |pts| ensures IntersectPoint(pts[i], global) {
      BoundsEnclose(pts, i);
    }
    BuildEnclosed(c, pts, 0, 1, global);
    BuildContents(c, pts, 0, 1, global);
    TraverseComplete(t, query);
    WithinMultiset(Contents(t), pts, query);
    SizeIsContents(t);
    assert |Contents(t)| == |multiset(Contents(t))|;
  }
}
