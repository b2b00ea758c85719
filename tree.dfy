/** The quad tree of quad_tree.h and quad_tree.cpp as the source builds it:
    nodes whose fields are filled in place, compute_bounds, get_buckets and
    set_data as loops, build_tree making the children of a node and storing
    them in its slots, the traversal and the size count over the linked
    nodes, and the quad_tree object that owns the root. Every method is
    proved against the value-level tree of TreeSpec. */
module QuadTree {
  import opened Geometry
  import opened Outcome
  import opened Msb
  import opened QuadKey
  import TreeSpec

  /** The footprint of a child slot. */
  ghost function Foot(n: Node?): set<object>
    reads n
  {
    if n == null then {} else n.Repr
  }

  /** Two child slots whose footprints do not overlap. */
  ghost predicate Apart(a: Node?, b: Node?)
    reads a, b
  {
    Foot(a) !! Foot(b)
  }

  /** The value of a child slot: an empty slot is Nil. */
  ghost function ModelOf(n: Node?): TreeSpec.Tree
    reads n
  {
    if n == null then TreeSpec.Nil else n.model
  }

  /** A child slot whose footprint nothing has touched keeps its node's
      validity, footprint and model. */
  twostate lemma Kept(n: Node?)
    requires old(n != null ==> n.Valid()) && unchanged(old(Foot(n)))
    ensures n != null ==> n.Valid()
    ensures Foot(n) == old(Foot(n)) && ModelOf(n) == old(ModelOf(n))
  {}

  /** quad_tree::node: a key, the bounds of its points, the points of a
      leaf and the four child slots children_ in ChildId order. */
  class Node {
    var key: bv64
    var bounds: Rect
    var points: seq<Point>
    var children: seq<Node?>
    ghost var model: TreeSpec.Tree
    ghost var Repr: set<object>

    /** The node owns its children, whose footprints are disjoint, and its
        model is the tree its fields and its children's models spell. */
    ghost predicate Valid()
      reads this, Repr
      decreases Repr
    {
      this in Repr && |children| == 4 &&
      Owns(children[0]) && Owns(children[1]) && Owns(children[2]) && Owns(children[3]) &&
      (children[0] != null ==> children[0].Valid()) &&
      (children[1] != null ==> children[1].Valid()) &&
      (children[2] != null ==> children[2].Valid()) &&
      (children[3] != null ==> children[3].Valid()) &&
      Apart(children[0], children[1]) && Apart(children[0], children[2]) && Apart(children[0], children[3]) &&
      Apart(children[1], children[2]) && Apart(children[1], children[3]) && Apart(children[2], children[3]) &&
      model == TreeSpec.Node(key, bounds, points, ModelOf(children[0]), ModelOf(children[1]),
                             ModelOf(children[2]), ModelOf(children[3]))
    }

    /** A child slot holds nothing, or a node inside this node's footprint
        that does not reach back to this node. */
    ghost predicate Owns(n: Node?)
      reads this, Repr
    {
      n != null ==> n in Repr && n.Repr <= Repr && this !in n.Repr
    }

    /** node(quad_key, point_bounds): no points and four empty slots. */
    constructor (key: bv64, bounds: Rect)
      ensures Valid() && fresh(Repr)
      ensures this.key == key && this.bounds == bounds && points == [] && children == [null, null, null, null]
      ensures model == TreeSpec.Node(key, bounds, [], TreeSpec.Nil, TreeSpec.Nil, TreeSpec.Nil, TreeSpec.Nil)
    {
      this.key := key;
      this.bounds := bounds;
      points := [];
      children := [null, null, null, null];
      model := TreeSpec.Node(key, bounds, [], TreeSpec.Nil, TreeSpec.Nil, TreeSpec.Nil, TreeSpec.Nil);
      Repr := {this};
    }

    /** build_tree's four stores into children_: the child nodes, built
        apart from this node and from each other, fill the empty slots. */
    method Attach(n0: Node?, n1: Node?, n2: Node?, n3: Node?, ghost feet: set<object>)
      requires Valid() && children == [null, null, null, null]
      requires n0 != null ==> n0.Valid()
      requires n1 != null ==> n1.Valid()
      requires n2 != null ==> n2.Valid()
      requires n3 != null ==> n3.Valid()
      requires feet == Foot(n0) + Foot(n1) + Foot(n2) + Foot(n3) && feet !! Repr
      requires Apart(n0, n1) && Apart(n0, n2) && Apart(n0, n3) && Apart(n1, n2) && Apart(n1, n3) && Apart(n2, n3)
      modifies this
      ensures Valid() && Repr == old(Repr) + feet
      ensures model == old(TreeSpec.Node(key, bounds, points, ModelOf(n0), ModelOf(n1), ModelOf(n2), ModelOf(n3)))
      ensures children == [n0, n1, n2, n3]
      ensures key == old(key) && bounds == old(bounds) && points == old(points)
    {
      assert this !in Foot(n0) && this !in Foot(n1) && this !in Foot(n2) && this !in Foot(n3);
      children := [n0, n1, n2, n3];
      Repr := Repr + feet;
      model := TreeSpec.Node(key, bounds, points, ModelOf(n0), ModelOf(n1), ModelOf(n2), ModelOf(n3));
      Kept(n0);
      Kept(n1);
      Kept(n2);
      Kept(n3);
    }

    /** set_child: a plain store of a pointer into the slot of a ChildId. It
        keeps no ownership: the caller decides whether the node stays Valid
        (build_tree stores its children through Attach instead). */
    method SetChild(id: ChildId, child: Node?)
      requires |children| == 4
      modifies this`children
      ensures |children| == 4 && children[SlotOf(id)] == child
      ensures forall j :: 0 <= j < 4 && j != SlotOf(id) as int ==> children[j] == old(children[j])
    {
      children := children[SlotOf(id) := child];
    }

    /** set_data: the node stores a copy of the slice, in order. */
    method SetData(pts: seq<Point>)
      requires Valid()
      modifies this
      ensures Valid() && Repr == old(Repr)
      ensures points == pts && key == old(key) && bounds == old(bounds) && children == old(children)
    {
      points := seq(|pts|, _ => Point(0, 0, 0.0, 0.0));
      var index := 0;
      while index < |pts|
        modifies this`points
        invariant 0 <= index <= |pts| && |points| == |pts|
        invariant points[..index] == pts[..index]
      {
        points := points[index := pts[index]];
        index := index + 1;
      }
      assert points == points[..index];
      model := TreeSpec.Node(key, bounds, points, ModelOf(children[0]), ModelOf(children[1]),
                             ModelOf(children[2]), ModelOf(children[3]));
    }
  }

  /** compute_bounds: the running minima and maxima of the slice, floored
      and ceiled. */
  method ComputeBounds(pts: seq<Point>) returns (r: Rect)
    ensures r == TreeSpec.BoundsOf(pts)
  {
    var maxY := -TreeSpec.FltMax;
    var minY := TreeSpec.FltMax;
    var maxX := -TreeSpec.FltMax;
    var minX := TreeSpec.FltMax;
    var i := 0;
    while i < |pts|
      invariant 0 <= i <= |pts|
      invariant TreeSpec.Extremes(pts[..i]) == Rect(minX, minY, maxX, maxY)
    {
      var p := pts[i];
      if p.x < minX { minX := p.x; }
      if p.x > maxX { maxX := p.x; }
      if p.y < minY { minY := p.y; }
      if p.y > maxY { maxY := p.y; }
      assert pts[..i + 1][..i] == pts[..i];
      i := i + 1;
    }
    assert pts[..i] == pts;
    r := Rect(TreeSpec.Floor(minX), TreeSpec.Floor(minY), TreeSpec.Ceil(maxX), TreeSpec.Ceil(maxY));
  }

  /** get_buckets: the children of the first point's key, and the four
      buckets of the slice, each point going to the slot of its key one
      level down minus the first child. The slice shares the key of its
      first point, as build_tree guarantees, and that key has children. */
  method GetBuckets(c: TreeSpec.Config, pts: seq<Point>, depth: bv8) returns (ids: seq<bv64>, bins: seq<seq<Point>>)
    requires TreeSpec.KeyLaws(c) && depth < MaxDepth && |pts| > 0
    requires TreeSpec.AllKeyed(c, pts, depth, c.key(pts[0], depth))
    ensures 1 <= c.key(pts[0], depth) <= MaxParent
    ensures ids == ChildKeys(c.key(pts[0], depth))
    ensures bins == TreeSpec.Buckets(c, pts, depth, c.key(pts[0], depth))
  {
    var pid := c.key(pts[0], depth);
    TreeSpec.KeyHasChildren(c, pts[0], depth);
    ChildrenExist(pid);
    var children := ComputeChildren(pid);
    ids := children.value;
    bins := [[], [], [], []];
    var minId := ids[0];
    assert minId == QuadKey.Child(pid, 0);
    var it := 0;
    while it < |pts|
      invariant 0 <= it <= |pts|
      invariant bins == TreeSpec.Buckets(c, pts[..it], depth, pid)
    {
      var p := pts[it];
      var cpid := c.key(p, depth + 1);
      TreeSpec.BucketsSnoc(c, pts[..it], p, depth, pid, cpid, minId);
      var bucketIndex := TreeSpec.Offset(cpid, minId);
      bins := bins[bucketIndex := bins[bucketIndex] + [p]];
      assert pts[..it + 1] == pts[..it] + [p];
      it := it + 1;
    }
    assert pts[..it] == pts;
  }

  /** The room get_buckets gives each bucket's vector as written: a quarter
      of the slice size at first, and another quarter each time it has
      `grown` times been found full, every quarter truncated to whole slots.
      The model's GetBuckets appends instead and has no such room. */
  function BucketRoomAsWritten(count: nat, grown: nat): nat
  {
    if grown == 0 then count / 4 else BucketRoomAsWritten(count, grown - 1) + count / 4
  }

  /** The room after `grown` growths is grown + 1 truncated quarters of
      the slice size. */
  lemma {:induction false} BucketRoomClosed(count: nat, grown: nat)
    ensures BucketRoomAsWritten(count, grown) == (grown + 1) * (count / 4)
  {
    if grown > 0 {
      BucketRoomClosed(count, grown - 1);
      assert (grown + 1) * (count / 4) == grown * (count / 4) + count / 4;
    }
  }

  /** A slice of fewer than four points (reachable when max_block_size is 2
      or less) gets buckets with no room however often they grow, so the
      first store into one writes past the end of its vector. */
  lemma SmallSliceHasNoRoom(count: nat, grown: nat)
    requires count < 4
    ensures BucketRoomAsWritten(count, grown) == 0
  {
    BucketRoomClosed(count, grown);
  }

  /** build_node for one bucket: a fresh node of the bucket's child key.
      Its depth, msb64 of the key halved, is at least 1 for every key below
      the root, so the bounds are compute_bounds of the bucket. */
  method BuildNode(id: bv64, bin: seq<Point>) returns (n: Node)
    requires 4 <= id <= MaxKey
    ensures fresh(n) && fresh(n.Repr) && n.Valid()
    ensures n.key == id && n.bounds == TreeSpec.BoundsOf(bin)
    ensures n.points == [] && n.children == [null, null, null, null]
  {
    var msb := Msb64(id);
    MsbOfChildKey(id);
    var depth := msb.value / 2;
    if depth == 0 {
      assert false;
    }
    var pointBounds := ComputeBounds(bin);
    n := new Node(id, pointBounds);
  }

  /** build_tree on a node of key node.key at a depth: a slice of more than
      max_block_size points above the deepest level is split into buckets,
      and each non-empty bucket gets a child built one level down in its
      slot; any other slice is stored in the node. An empty slice or a null
      node leaves everything as it is. */
  method BuildTree(c: TreeSpec.Config, node: Node?, pts: seq<Point>, depth: bv8)
    requires TreeSpec.KeyLaws(c) && depth <= MaxDepth
    requires node != null ==> node.Valid() && node.points == [] && node.children == [null, null, null, null]
    requires node != null ==> TreeSpec.AllKeyed(c, pts, depth, node.key)
    modifies node
    ensures node != null ==> node.Valid() && fresh(node.Repr - old(node.Repr))
    ensures node != null ==> node.key == old(node.key) && node.bounds == old(node.bounds)
    ensures node != null ==> node.model == TreeSpec.Build(c, pts, depth, node.key, node.bounds)
    decreases MaxDepth - depth, 4
  {
    var count := |pts|;
    if node == null || count == 0 {
      return;
    }
    if count > c.maxBlock && depth != MaxDepth {
      var ids, bins := GetBuckets(c, pts, depth);
      BuildInternal(c, node, pts, depth, ids, bins);
    } else {
      node.SetData(pts);
    }
  }

  /** The internal-node branch of build_tree: the children of the four slot
      blocks over the buckets get_buckets made, stored in the node. */
  method BuildInternal(c: TreeSpec.Config, node: Node, pts: seq<Point>, depth: bv8, ids: seq<bv64>, bins: seq<seq<Point>>)
    requires TreeSpec.KeyLaws(c) && depth < MaxDepth && 1 <= node.key <= MaxParent
    requires node.Valid() && node.points == [] && node.children == [null, null, null, null]
    requires ids == ChildKeys(node.key) && bins == TreeSpec.Buckets(c, pts, depth, node.key)
    modifies node
    ensures node.Valid() && fresh(node.Repr - old(node.Repr))
    ensures node.key == old(node.key) && node.bounds == old(node.bounds)
    ensures node.model == TreeSpec.Node(node.key, node.bounds, [],
      TreeSpec.Slot(c, pts, depth, node.key, 0), TreeSpec.Slot(c, pts, depth, node.key, 1),
      TreeSpec.Slot(c, pts, depth, node.key, 2), TreeSpec.Slot(c, pts, depth, node.key, 3))
    decreases MaxDepth - depth, 3
  {
    var child0, child1, child2, child3, feet := BuildQuad(c, pts, depth, node.key, ids, bins, node.Repr);
    node.Attach(child0, child1, child2, child3, feet);
  }

  /** The children of the four slot blocks, built apart from others and
      from each other. */
  method BuildQuad(c: TreeSpec.Config, pts: seq<Point>, depth: bv8, key: bv64, ids: seq<bv64>, bins: seq<seq<Point>>,
                   ghost others: set<object>) returns (n0: Node?, n1: Node?, n2: Node?, n3: Node?, ghost feet: set<object>)
    requires TreeSpec.KeyLaws(c) && depth < MaxDepth && 1 <= key <= MaxParent
    requires ids == ChildKeys(key) && bins == TreeSpec.Buckets(c, pts, depth, key)
    ensures n0 != null ==> n0.Valid()
    ensures n1 != null ==> n1.Valid()
    ensures n2 != null ==> n2.Valid()
    ensures n3 != null ==> n3.Valid()
    ensures fresh(feet) && feet !! others && feet == Foot(n0) + Foot(n1) + Foot(n2) + Foot(n3)
    ensures Apart(n0, n1) && Apart(n0, n2) && Apart(n0, n3) && Apart(n1, n2) && Apart(n1, n3) && Apart(n2, n3)
    ensures ModelOf(n0) == TreeSpec.Slot(c, pts, depth, key, 0)
    ensures ModelOf(n1) == TreeSpec.Slot(c, pts, depth, key, 1)
    ensures ModelOf(n2) == TreeSpec.Slot(c, pts, depth, key, 2)
    ensures ModelOf(n3) == TreeSpec.Slot(c, pts, depth, key, 3)
    decreases MaxDepth - depth, 2
  {
    ghost var low, high;
    n0, n1, low := BuildPair(c, pts, depth, key, ids, bins, 0, others);
    label Low:
    n2, n3, high := BuildPair(c, pts, depth, key, ids, bins, 2, others + low);
    Kept@Low(n0);
    Kept@Low(n1);
    feet := low + high;
  }

  /** Two neighbouring slot blocks, q and q + 1, their children built apart
      from others and from each other. */
  method BuildPair(c: TreeSpec.Config, pts: seq<Point>, depth: bv8, key: bv64, ids: seq<bv64>, bins: seq<seq<Point>>,
                   q: bv64, ghost others: set<object>) returns (a: Node?, b: Node?, ghost feet: set<object>)
    requires TreeSpec.KeyLaws(c) && depth < MaxDepth && 1 <= key <= MaxParent && (q == 0 || q == 2)
    requires ids == ChildKeys(key) && bins == TreeSpec.Buckets(c, pts, depth, key)
    ensures a != null ==> a.Valid()
    ensures b != null ==> b.Valid()
    ensures fresh(feet) && feet !! others && feet == Foot(a) + Foot(b) && Apart(a, b)
    ensures ModelOf(a) == TreeSpec.Slot(c, pts, depth, key, q)
    ensures ModelOf(b) == TreeSpec.Slot(c, pts, depth, key, q + 1)
    decreases MaxDepth - depth, 1
  {
    a := BuildChild(c, pts, depth, key, ids[q], bins[q], q, others);
    label First:
    b := BuildChild(c, pts, depth, key, ids[q + 1], bins[q + 1], q + 1, others + Foot(a));
    Kept@First(a);
    feet := Foot(a) + Foot(b);
  }

  /** The child of one of build_tree's four slot blocks: nothing for an empty
      bucket, else build_node of the bucket's key built one level down. */
  method BuildChild(c: TreeSpec.Config, pts: seq<Point>, depth: bv8, key: bv64, id: bv64, bin: seq<Point>, q: bv64,
                    ghost others: set<object>) returns (child: Node?)
    requires TreeSpec.KeyLaws(c) && depth < MaxDepth && 1 <= key <= MaxParent && q < 4
    requires id == QuadKey.Child(key, q) && bin == TreeSpec.Bucket(c, pts, depth, id)
    ensures child != null ==> child.Valid()
    ensures fresh(Foot(child)) && Foot(child) !! others
    ensures ModelOf(child) == TreeSpec.Slot(c, pts, depth, key, q)
    decreases MaxDepth - depth, 0
  {
    child := null;
    if |bin| != 0 {
      ChildDigit(key, q);
      var n := BuildNode(id, bin);
      TreeSpec.BucketKeyed(c, pts, depth, id);
      BuildTree(c, n, bin, depth + 1);
      child := n;
    }
  }

  /** traverse_tree_by_bounds: the points handed to the callback, in the
      order it receives them. */
  method TraverseTreeByBounds(curr: Node?, query: Rect) returns (found: seq<Point>)
    requires curr != null ==> curr.Valid()
    ensures found == TreeSpec.Traverse(ModelOf(curr), query)
    decreases if curr == null then {} else curr.Repr
  {
    found := [];
    if curr == null {
      return;
    }
    if Intersect(query, curr.bounds) {
      if |curr.points| != 0 {
        found := VisitLeaf(curr.points, query);
      } else {
        var f0 := TraverseTreeByBounds(curr.children[0], query);
        var f1 := TraverseTreeByBounds(curr.children[1], query);
        var f2 := TraverseTreeByBounds(curr.children[2], query);
        var f3 := TraverseTreeByBounds(curr.children[3], query);
        found := f0 + f1 + f2 + f3;
      }
    }
  }

  /** The for_each over a leaf's points in traverse_tree_by_bounds: the
      ones inside the query, in order. */
  method VisitLeaf(points: seq<Point>, query: Rect) returns (found: seq<Point>)
    ensures found == TreeSpec.Within(points, query)
  {
    found := [];
    var i := 0;
    while i < |points|
      invariant 0 <= i <= |points|
      invariant found == TreeSpec.Within(points[..i], query)
    {
      var p := points[i];
      if IntersectPoint(p, query) {
        found := found + [p];
      }
      assert points[..i + 1][..i] == points[..i];
      i := i + 1;
    }
    assert points[..i] == points;
  }

  /** size_recursive: adds to count the number of points the leaves under
      curr store. */
  method SizeRecursive(curr: Node?, count: nat) returns (total: nat)
    requires curr != null ==> curr.Valid()
    ensures total == count + TreeSpec.Size(ModelOf(curr))
    decreases if curr == null then {} else curr.Repr
  {
    total := count;
    if curr == null {
      return;
    } else if |curr.points| != 0 {
      total := total + |curr.points|;
    } else {
      total := SizeRecursive(curr.children[0], total);
      total := SizeRecursive(curr.children[1], total);
      total := SizeRecursive(curr.children[2], total);
      total := SizeRecursive(curr.children[3], total);
    }
  }

  /** points_to_vector: the points of a caller's array, in order, and their
      number. */
  method PointsToVector(a: array<Point>) returns (v: seq<Point>, size: nat)
    ensures v == a[..] && size == a.Length
  {
    size := a.Length;
    v := seq(size, _ => Point(0, 0, 0.0, 0.0));
    var i := 0;
    while i < size
      invariant 0 <= i <= size && |v| == size
      invariant v[..i] == a[..i]
    {
      v := v[i := a[i]];
      i := i + 1;
    }
    assert v == v[..i];
  }

  /** The steps of create before the tree takes the root: the global
      bounds of the points, a root of the first point's key at depth 0
      bounded by them, and build_tree from the root at depth 0. */
  method BuildRootNode(norm: (Point, Rect) -> TreeSpec.Cell, maxBlock: nat, pts: seq<Point>) returns (node: Node, global: Rect)
    requires |pts| > 0
    ensures fresh(node.Repr) && node.Valid()
    ensures global == TreeSpec.BoundsOf(pts) && node.model == TreeSpec.BuildRoot(norm, maxBlock, pts)
  {
    global := ComputeBounds(pts);
    var c := TreeSpec.MakeConfig(norm, global, maxBlock);
    TreeSpec.QuadKeyLaws(norm, global, maxBlock);
    node := new Node(c.key(pts[0], 0), global);
    BuildTree(c, node, pts, 0);
  }

  /** quad_tree: the root node and the global bounds, over the points it
      was built from (contents) with a normalisation of coordinates and
      max_block_size. An empty tree has no root and zero bounds. */
  class Tree {
    var root: Node?
    var globalBounds: Rect
    const norm: (Point, Rect) -> TreeSpec.Cell
    const maxBlock: nat
    ghost var contents: seq<Point>
    ghost var Repr: set<object>

    /** The tree owns its root, which is the tree build_tree makes of the
        contents under the bounds compute_bounds gives them. */
    ghost predicate Valid()
      reads this, Repr
    {
      this in Repr &&
      (root != null ==> root in Repr && root.Repr <= Repr && this !in root.Repr && root.Valid()) &&
      (root == null <==> contents == []) &&
      (contents == [] ==> globalBounds == Rect(0.0, 0.0, 0.0, 0.0)) &&
      (root != null ==> globalBounds == TreeSpec.BoundsOf(contents) &&
                        root.model == TreeSpec.BuildRoot(norm, maxBlock, contents))
    }

    /** quad_tree(begin, end, min_block_size, max_block_size): an empty
        range leaves the tree empty, any other is built by create.
        min_block_size is not read. */
    constructor (pts: seq<Point>, norm: (Point, Rect) -> TreeSpec.Cell, minBlock: nat, maxBlock: nat)
      ensures Valid() && fresh(Repr)
      ensures contents == pts && this.norm == norm && this.maxBlock == maxBlock
    {
      this.norm := norm;
      this.maxBlock := maxBlock;
      root := null;
      globalBounds := Rect(0.0, 0.0, 0.0, 0.0);
      contents := [];
      Repr := {this};
      new;
      if |pts| != 0 {
        Create(pts);
      }
    }

    /** quad_tree(point_begin, point_end, min_block_size, max_block_size):
        no array leaves the tree empty; otherwise points_to_vector copies
        the array and create builds on the copy. The array must not be
        empty, since create reads its first point. */
    constructor FromArray(a: array?<Point>, norm: (Point, Rect) -> TreeSpec.Cell, minBlock: nat, maxBlock: nat)
      requires a != null ==> a.Length > 0
      ensures Valid() && fresh(Repr)
      ensures contents == (if a == null then [] else a[..])
      ensures this.norm == norm && this.maxBlock == maxBlock
    {
      this.norm := norm;
      this.maxBlock := maxBlock;
      root := null;
      globalBounds := Rect(0.0, 0.0, 0.0, 0.0);
      contents := [];
      Repr := {this};
      new;
      if a != null {
        var points, size := PointsToVector(a);
        Create(points);
      }
    }

    /** create: the root built over the points and the global bounds it
        is built under. */
    method Create(pts: seq<Point>)
      requires Valid() && root == null && |pts| > 0
      modifies this
      ensures Valid() && fresh(Repr - old(Repr)) && contents == pts
    {
      var node, bounds := BuildRootNode(norm, maxBlock, pts);
      globalBounds := bounds;
      root := node;
      contents := pts;
      Repr := Repr + node.Repr;
    }

    /** global_bounds(): compute_bounds of the points, or zero bounds for an
        empty tree. */
    function GlobalBounds(): (r: Rect)
      reads this, Repr
      requires Valid()
      ensures r == if contents == [] then Rect(0.0, 0.0, 0.0, 0.0) else TreeSpec.BoundsOf(contents)
    {
      globalBounds
    }

    /** size(): the number of points the tree was built from. */
    method Size() returns (n: nat)
      requires Valid()
      ensures n == |contents|
    {
      n := SizeRecursive(root, 0);
      if root != null {
        TreeSpec.QueryFindsAll(norm, maxBlock, contents, globalBounds);
      }
    }

    /** query(rect, callback): the points the callback receives, in order,
        which are exactly the points inside the rectangle, each as often as
        the tree holds it. */
    method Query(query: Rect) returns (found: seq<Point>)
      requires Valid()
      ensures found == TreeSpec.Traverse(ModelOf(root), query)
      ensures multiset(found) == multiset(TreeSpec.Within(contents, query))
    {
      found := TraverseTreeByBounds(root, query);
      if root != null {
        TreeSpec.QueryFindsAll(norm, maxBlock, contents, query);
      }
    }
  }
}
