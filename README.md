# FastRankedPointsInPolygon in Dafny

FastRankedPointsInPolygon finds, among a large set of ranked points, the
`count` best-ranked points inside an axis-aligned query rectangle. A lower
rank is better. This project models its core and proves properties of the
model:

- **Quad-key algebra** of `quad_tree.cpp`:
  - the Morton interleaving (`spread_by_1_bit`, `compact_by_1_bit`);
  - the most-significant-bit search `msb64`;
  - the key of a point at a depth (`compute_quad_key`);
  - the identifier ranges of a depth (`min_id`, `max_id`, `is_valid`);
  - `compute_children` and `compute_parent`;
  - the integer part of `compute_bounds_for_quad_key`;
  - `step_size_at_depth`.
- **The quad tree**:
  - nodes whose fields are filled in place;
  - `compute_bounds`, `get_buckets`, `build_tree` and `set_data`;
  - the traversal by bounds, the size count and the `quad_tree` object.
- **The geometry and the point interface** of `point_search.h`: the
  intersection tests, `Point`/`Rect` equality and the rank order.
- **The exported interface** of `point_search.cpp`: `create`, `search`
  and `destroy`, with `search`'s in-place selection of the best-ranked
  points in the caller's buffer.

Modules, one per part of the source:

| module | file | models |
|---|---|---|
| `Outcome` | outcome.dfy | the exceptions of the key functions, as a `Result` |
| `Geometry` | geometry.dfy | `Point`, `Rect`, `intersect`, `intersect_point`, `==`, `!=`, `operator<` |
| `BitSearch` | bit_search.dfy | the binary search loop inside `msb64` |
| `Msb` | msb.dfy | `only_msb64_on`, `msb64`, `max_depth` |
| `Interleave` | interleave.dfy | `spread_by_1_bit`, `compact_by_1_bit` |
| `QuadKey` | quad_key.dfy | identifier ranges, children, parent, step size, `compute_quad_key` from the normalised coordinates on |
| `CellDecode` | decode.dfy | `compute_bounds_for_quad_key` in integer space |
| `TreeSpec` | tree_spec.dfy | the tree `build_tree` makes, as a value; buckets, bounds, traversal, size |
| `QuadTree` | tree.dfy | `quad_tree::node` and `quad_tree` as classes updated in place, proved against `TreeSpec` |
| `PointSearch` | point_search.dfy | `SearchContext`, `create`, `search`, `destroy`; the selection as a function; `search` with the corrections of Findings 2 and 3, proved against it; and `search`'s pass over the buffer as written, beside it |

### Conventions

- **Integer types.** Keys (`uint64_t`) are `bv64` and depths (`uint8_t`)
  are `bv8`, so shifts and masks keep the source's wrap-around.
- **Coordinates** are `real`.
- **Ranks** are a 32-bit `int32` newtype.
- **Exceptions.** Each source exception is an `Err` of `Result`.
- **Float normalisation.** The conversion of a point's float coordinates
  into the 32-bit integer space (`quad_tree.cpp:132-149`) is a function
  parameter `norm`. Everything about the tree holds for every `norm`.

## Model

| member | source | states |
|---|---|---|
| Geometry.IntersectSymmetric | FastRankedPointsInPolygon/quad_tree.cpp:20-30 | `intersect` of two rectangles does not depend on their order |
| Geometry.IntersectCommonPoint | FastRankedPointsInPolygon/quad_tree.cpp:20-30 | for well-formed rectangles, `intersect` holds exactly when some point lies in both (both directions) |
| Geometry.IntersectPointInside | FastRankedPointsInPolygon/quad_tree.cpp:32-42 | `intersect_point` holds exactly when the point lies in the closed rectangle |
| Geometry.SharedPointIntersects | FastRankedPointsInPolygon/quad_tree.cpp:544-549 | a point inside both the query and a node's bounds makes the two rectangles intersect, so the traversal's pruning never drops a match |
| Geometry.PointEq | FastRankedPointsInPolygon/point_search.h:30-34 | `==` on points holds exactly when id, rank, x and y are all equal |
| Geometry.PointNe | FastRankedPointsInPolygon/point_search.h:36-39 | `!=` on points is the negation of `==` |
| Geometry.RectEq | FastRankedPointsInPolygon/point_search.h:41-45 | `==` on rectangles holds exactly when the four coordinates are equal |
| Geometry.RectNe | FastRankedPointsInPolygon/point_search.h:47-50 | `!=` on rectangles is the negation of `==` |
| Geometry.RankLessStrictWeakOrder | FastRankedPointsInPolygon/point_search.h:74-77 | `operator<` is irreflexive, transitive and asymmetric, and points of equal rank are interchangeable: a strict weak order |
| Geometry.RankLessIgnoresId | FastRankedPointsInPolygon/point_search.h:74-77 | `operator<` compares ranks only, so two distinct points can be incomparable |
| BitSearch.BitOrder | FastRankedPointsInPolygon/quad_tree.cpp:78-86 | comparing two single-bit masks compares their bit indices |
| BitSearch.Compare | FastRankedPointsInPolygon/quad_tree.cpp:78-86 | comparing the single-bit value with the mask says whether the bit index is above, below or at the depth |
| BitSearch.ShiftUp | FastRankedPointsInPolygon/quad_tree.cpp:79 | shifting a single-bit mask up by a halved step moves its bit by that step |
| BitSearch.ShiftDown | FastRankedPointsInPolygon/quad_tree.cpp:82 | shifting a single-bit mask down by a halved step moves its bit by that step |
| BitSearch.WindowUp | FastRankedPointsInPolygon/quad_tree.cpp:77-80 | after a step up, the bit index stays within the shrinking window around the depth |
| BitSearch.WindowDown | FastRankedPointsInPolygon/quad_tree.cpp:77-83 | after a step down, the bit index stays within the shrinking window around the depth |
| BitSearch.SearchUp | FastRankedPointsInPolygon/quad_tree.cpp:77-80 | the step up keeps the search invariant (mask is the bit of depth, and the index is within the window) |
| BitSearch.SearchDown | FastRankedPointsInPolygon/quad_tree.cpp:77-83 | the step down keeps the search invariant |
| BitSearch.SearchFound | FastRankedPointsInPolygon/quad_tree.cpp:76-87 | when the mask equals the value or the step reaches 0, the depth is the bit index |
| BitSearch.SearchStep | FastRankedPointsInPolygon/quad_tree.cpp:76-87 | one iteration of the loop: it either stops at the bit index or keeps the invariant with a smaller step |
| Msb.OnlyMsb | FastRankedPointsInPolygon/quad_tree.cpp:47-56 | `only_msb64_on` returns 0 exactly for 0, and otherwise the single highest set bit of its input |
| Msb.BitIndex | FastRankedPointsInPolygon/quad_tree.cpp:73-87 | the index of a single set bit, as the shift that produces it |
| Msb.MsbOfBit | FastRankedPointsInPolygon/quad_tree.cpp:65-89 | `msb64` on a single-bit value: an error exactly above the maximum key except for bit 60; otherwise the index of the bit, at most 58 |
| Msb.MsbIndex | FastRankedPointsInPolygon/quad_tree.cpp:58-90 | `msb64`: an `InvalidKey` error exactly for inputs above the maximum key whose top bits are not bit 60; 0 for 0; the index of the highest set bit for valid keys; 29 for the bit-60 branch |
| Msb.MsbValues | FastRankedPointsInPolygon/quad_tree.cpp:58-90 | `msb64` of the lowest bit, bit 28 and bit 58, and the error cases for bits 59, 61, 62 and 63 |
| Msb.MsbOfChildKey | FastRankedPointsInPolygon/quad_tree.cpp:462 | every key below the root has `msb64` at least 2, so build_node's depth is at least 1 |
| Msb.SearchStart | FastRankedPointsInPolygon/quad_tree.cpp:73-75 | the start of the search loop (mask bit 31, step 32, depth 31) satisfies the search invariant for the bit index |
| Msb.Msb64 | FastRankedPointsInPolygon/quad_tree.cpp:58-90 | the imperative `msb64`, with its search loop, returns exactly `MsbIndex` |
| Msb.MsbOfBitSearch | FastRankedPointsInPolygon/quad_tree.cpp:66-88 | the branches and search loop on a single-bit value return exactly `MsbOfBit` |
| Interleave.Spread | FastRankedPointsInPolygon/quad_tree.cpp:92-102 | `spread_by_1_bit` leaves every odd bit clear |
| Interleave.Compact | FastRankedPointsInPolygon/quad_tree.cpp:104-114 | `compact_by_1_bit` yields a value of at most 32 bits |
| Interleave.CompactSpread | FastRankedPointsInPolygon/quad_tree.cpp:92-114 | compacting a spread value gives back its low 32 bits (round trip) |
| Interleave.SpreadCompact | FastRankedPointsInPolygon/quad_tree.cpp:92-114 | spreading a compacted value gives back its even bits (round trip) |
| Interleave.SpreadBound | FastRankedPointsInPolygon/quad_tree.cpp:92-102 | a value below 2^j spreads to a value below 2^(2j) |
| Interleave.MortonSplit | FastRankedPointsInPolygon/quad_tree.cpp:151-155 | the x and y coordinates are recovered from their Morton code by masking and compacting (the decode of lines 258-262) |
| Interleave.SpreadShift1 | FastRankedPointsInPolygon/quad_tree.cpp:92-102 | dropping one coordinate bit drops two spread bits |
| Interleave.SpreadShift3 | FastRankedPointsInPolygon/quad_tree.cpp:92-102 | dropping three coordinate bits drops six spread bits |
| Interleave.InterleaveShift2 | FastRankedPointsInPolygon/quad_tree.cpp:151-155 | a shift by two distributes over the interleaving of x and y |
| Interleave.InterleaveShift6 | FastRankedPointsInPolygon/quad_tree.cpp:151-155 | a shift by six distributes over the interleaving of x and y |
| Interleave.MortonShift1 | FastRankedPointsInPolygon/quad_tree.cpp:151-155 | the Morton code shifted by two is the code of the coordinates halved |
| Interleave.MortonShift3 | FastRankedPointsInPolygon/quad_tree.cpp:151-155 | the Morton code shifted by six is the code of the coordinates divided by eight |
| QuadKey.MinId | FastRankedPointsInPolygon/quad_tree.cpp:178-183 | `min_id(depth)` carries the depth's tag bit as its highest bit |
| QuadKey.MaxId | FastRankedPointsInPolygon/quad_tree.cpp:185-191 | `max_id(depth)` carries the depth's tag bit as its highest bit |
| QuadKey.IdRange | FastRankedPointsInPolygon/quad_tree.h:146-174 | a key lies between `min_id` and `max_id` of a depth exactly when its highest bit is that depth's tag bit |
| QuadKey.IdValues | FastRankedPointsInPolygon/quad_tree.h:146-174 | the documented values: 1 and 1 at depth 0, 4 and 7 at depth 1, 16 and 31 at depth 2, and the extremes at depths 28 and 29 |
| QuadKey.IsValid | FastRankedPointsInPolygon/quad_tree.cpp:193-203 | a key is valid exactly when it is non-zero and at most `max_id(max_depth())` |
| QuadKey.ComputeChildrenAsWritten | FastRankedPointsInPolygon/quad_tree.cpp:205-218 | `compute_children` as written: `InvalidKey` for invalid keys, `MaxDepthReached` from `max_id(28)` on, otherwise the four keys `parent * 4 + i` |
| QuadKey.ComputeChildren | FastRankedPointsInPolygon/quad_tree.h:186-199 | `compute_children` as documented: `InvalidKey` for invalid keys, `MaxDepthReached` above every depth-28 key, otherwise the four children |
| QuadKey.ChildDigit | FastRankedPointsInPolygon/quad_tree.cpp:215-217 | child `i` of a parent has the parent as its top bits and `i` as its last two bits, and is a valid key below the root |
| QuadKey.ComputeParent | FastRankedPointsInPolygon/quad_tree.cpp:220-231 | `compute_parent`: `InvalidKey` for invalid keys, `NoParent` for the root, otherwise the key shifted right by two |
| QuadKey.ParentOfChild | FastRankedPointsInPolygon/quad_tree.cpp:205-231 | the parent of each child of a parent is that parent (inverse pair) |
| QuadKey.ChildrenExist | FastRankedPointsInPolygon/quad_tree.h:186-199 | `compute_children` succeeds exactly for keys of depths 0 to 28 |
| QuadKey.ParentOfChildren | FastRankedPointsInPolygon/quad_tree.cpp:205-231 | each of the four children is the i-th child of its parent, and `compute_parent` maps it back |
| QuadKey.ChildrenDistinct | FastRankedPointsInPolygon/quad_tree.cpp:215-217 | the four children of a parent are distinct |
| QuadKey.ChildOfParent | FastRankedPointsInPolygon/quad_tree.cpp:205-231 | every valid key below the root is the child, at its last two bits, of its parent (the other direction of the inverse pair) |
| QuadKey.StepSize | FastRankedPointsInPolygon/quad_tree.cpp:312-315 | `step_size_at_depth(d)` plus one is 2^(32-d), the width of a depth-d cell in the 32-bit integer space |
| QuadKey.StepSizeValues | FastRankedPointsInPolygon/quad_tree.cpp:312-315 | the step sizes of depths 0 to 3 |
| QuadKey.QuadKeyBits | FastRankedPointsInPolygon/quad_tree.cpp:121-176 | `compute_quad_key` throws `InvalidDepth` exactly for depths above 29 |
| QuadKey.QuadKeyRoot | FastRankedPointsInPolygon/quad_tree.cpp:161-169 | at depth 0, where the shift of 64 is replaced by 63, every key is the root key 1 |
| QuadKey.ChopNoOp | FastRankedPointsInPolygon/quad_tree.cpp:156-174 | clearing the top bit and putting it back as bit 2*depth-1 gives the plain shifted key |
| QuadKey.StepChop | FastRankedPointsInPolygon/quad_tree.cpp:156-174 | with the top bit set, the key one level deeper, shifted right by two, is the key at the depth |
| QuadKey.StepPlain | FastRankedPointsInPolygon/quad_tree.cpp:156-174 | with the top bit clear, the key one level deeper, shifted right by two, is the key at the depth |
| QuadKey.StepRoot | FastRankedPointsInPolygon/quad_tree.cpp:161-174 | the depth-1 key shifted right by two is the root key |
| QuadKey.QuadKeyStep | FastRankedPointsInPolygon/quad_tree.cpp:151-176 | for every Morton code, the key at depth+1 is a child of the key at depth |
| QuadKey.QuadKeyTag | FastRankedPointsInPolygon/quad_tree.cpp:166-169 | the highest bit of a point's key at a depth is that depth's tag bit |
| QuadKey.QuadKeyRange | FastRankedPointsInPolygon/quad_tree.cpp:151-176 | a point's key at a depth lies between `min_id` and `max_id` of the depth and is valid |
| QuadKey.PointKeyValid | FastRankedPointsInPolygon/quad_tree.cpp:121-176 | `compute_quad_key` yields a valid key at every accepted depth |
| QuadKey.TaggedKeyValid | FastRankedPointsInPolygon/quad_tree.cpp:193-203 | a key whose highest bit is a depth's tag bit is valid |
| QuadKey.PointKeyAtRoot | FastRankedPointsInPolygon/quad_tree.cpp:438 | the root node's key, that of the first point at depth 0, is 1 |
| QuadKey.PointKeyStep | FastRankedPointsInPolygon/quad_tree.cpp:480 | a point's key at depth+1 is a child of its key at depth, so get_buckets places it under its parent |
| QuadKey.KeyDigits | FastRankedPointsInPolygon/quad_tree.cpp:216 | a key is its parent times four plus its last two bits |
| QuadKey.BucketIndex | FastRankedPointsInPolygon/quad_tree.cpp:644-645 | the bucket index `c_pid - min_id` is the last two bits of the child key, below 4 |
| QuadKey.ChildQuadrant | FastRankedPointsInPolygon/quad_tree.cpp:644-645 | a child key equals child q of its parent exactly when q is its last two bits |
| QuadKey.ChildIndex | FastRankedPointsInPolygon/quad_tree.cpp:644-645 | the bucket index of a child key is below 4 and names that child |
| QuadKey.ChildSlot | FastRankedPointsInPolygon/quad_tree.cpp:644-645 | a child key goes to slot q exactly when q is its bucket index |
| QuadKey.HasChildren | FastRankedPointsInPolygon/quad_tree.cpp:634 | a key that has a valid child key passes the documented `compute_children` (`ComputeChildren`); the code as written refuses `max_id(28)` (Finding 1) |
| QuadKey.OneChild | FastRankedPointsInPolygon/quad_tree.cpp:644-651 | a child key equals exactly one of the four children of its parent |
| QuadKey.CornerKey | FastRankedPointsInPolygon/quad_tree.cpp:121-176 | the upper-right corner of the integer space has key `max_id(28)` at depth 28 |
| QuadKey.CornerChildren | FastRankedPointsInPolygon/quad_tree.cpp:212-213 | `compute_children` as written rejects `max_id(28)`; the corrected one returns its four children |
| QuadKey.CellKeyStep | FastRankedPointsInPolygon/quad_tree.cpp:151-176 | the key of cell (x, y) one level deeper, shifted right by two, is the key of cell (x/2, y/2) |
| QuadKey.SlotOf | FastRankedPointsInPolygon/quad_tree.h:236-241 | a `ChildId` names one of the four slots |
| QuadKey.SpreadLowBit | FastRankedPointsInPolygon/quad_tree.cpp:92-102 | spreading keeps the lowest bit in place |
| QuadKey.CellKeyDigit | FastRankedPointsInPolygon/quad_tree.cpp:151-155 | the last two bits of a cell key are x's low bit and y's low bit above it |
| QuadKey.DigitSlot | FastRankedPointsInPolygon/quad_tree.h:236-241 | those two bits are the slot of the `ChildId` of the quadrant: east for x, north for y |
| QuadKey.CellQuadrant | FastRankedPointsInPolygon/quad_tree.h:236-241 | a cell's key is the child, at its ChildId quadrant, of its half-size parent cell's key |
| CellDecode.DecodeCell | FastRankedPointsInPolygon/quad_tree.cpp:254-268 | the integer part of `compute_bounds_for_quad_key` fails (through `msb64`) exactly for the keys `msb64` rejects |
| CellDecode.CellKeyTag | FastRankedPointsInPolygon/quad_tree.cpp:254-258 | a cell key's highest bit is the tag bit of its depth, and removing it leaves the Morton code |
| CellDecode.TagBetween | FastRankedPointsInPolygon/quad_tree.cpp:254 | the only bit between the key halved and the key is the tag bit |
| CellDecode.TagIsMsb | FastRankedPointsInPolygon/quad_tree.cpp:254-256 | `msb64` of a tagged key is twice its depth, and `only_msb64_on` is its tag bit |
| CellDecode.DecodeCellKey | FastRankedPointsInPolygon/quad_tree.cpp:254-268 | decoding the key of cell (x, y) at any depth gives back that cell's corners: encode then decode is the identity |
| CellDecode.CornersOfCellKey | FastRankedPointsInPolygon/quad_tree.cpp:256-268 | the decoding steps after `msb64` applied to a cell key give that cell's corners |
| CellDecode.SmallCoord | FastRankedPointsInPolygon/quad_tree.cpp:258-262 | the coordinates of a cell fit in 32 bits |
| CellDecode.PlainKeyDeepest | FastRankedPointsInPolygon/quad_tree.cpp:161-169 | at depth 29 the key is the tag bit over the Morton code shifted right by six |
| CellDecode.PointKeyDeepest | FastRankedPointsInPolygon/quad_tree.cpp:151-176 | a point's depth-29 key is the key of the cell of its coordinates divided by eight |
| CellDecode.DeepestCellContains | FastRankedPointsInPolygon/quad_tree.cpp:121-176 | the cell decoded from a point's depth-29 key contains the point |
| CellDecode.DeepCoord | FastRankedPointsInPolygon/quad_tree.cpp:151-152 | a 32-bit coordinate divided by eight is a depth-29 cell coordinate |
| CellDecode.DeepCorners | FastRankedPointsInPolygon/quad_tree.cpp:264-268 | the corners of that depth-29 cell enclose the coordinates |
| TreeSpec.QuadKeyLaws | FastRankedPointsInPolygon/quad_tree.cpp:121-176 | `compute_quad_key` under any normalisation gives valid keys, each depth's key the parent of the next |
| TreeSpec.KeyQuadrant | FastRankedPointsInPolygon/quad_tree.cpp:643-651 | the deeper key of a point names exactly one child slot of its key |
| TreeSpec.KeyIndex | FastRankedPointsInPolygon/quad_tree.cpp:644-645 | a point's bucket index is below 4 and names its child |
| TreeSpec.KeyIndexOf | FastRankedPointsInPolygon/quad_tree.cpp:644-645 | the same for a slice sharing a key |
| TreeSpec.OneQuadrant | FastRankedPointsInPolygon/quad_tree.cpp:644-651 | each point of a keyed slice goes to exactly one of the four buckets |
| TreeSpec.BucketKeyed | FastRankedPointsInPolygon/quad_tree.cpp:482-491 | every point of a bucket has the bucket's key one level down, as build_tree demands of the child |
| TreeSpec.BucketLast | FastRankedPointsInPolygon/quad_tree.cpp:643-657 | a bucket gains the last point of a slice exactly when that point's key is the bucket's |
| TreeSpec.KeyHasChildren | FastRankedPointsInPolygon/quad_tree.cpp:634 | the documented `compute_children` (`ComputeChildren`) succeeds on the first point's key at every depth below 29; the code as written refuses the depth-28 key `max_id(28)` (Finding 1) |
| TreeSpec.BucketSnoc | FastRankedPointsInPolygon/quad_tree.cpp:643-657 | appending a point to a slice appends it to its own bucket only |
| TreeSpec.KeySlot | FastRankedPointsInPolygon/quad_tree.cpp:644-645 | a point's child key is child q of its key exactly when q is its bucket index |
| TreeSpec.SlotSnoc | FastRankedPointsInPolygon/quad_tree.cpp:643-657 | appending a point grows the bucket of slot q exactly when q is its bucket index |
| TreeSpec.GrowBucket | FastRankedPointsInPolygon/quad_tree.cpp:643-657 | the same for a slice sharing a key |
| TreeSpec.OffsetIsDifference | FastRankedPointsInPolygon/quad_tree.cpp:645 | the bucket index is the integer difference `c_pid - min_id` |
| TreeSpec.OffsetSlot | FastRankedPointsInPolygon/quad_tree.cpp:645-647 | the bucket index selects the slot of the same number |
| TreeSpec.BucketStepAt | FastRankedPointsInPolygon/quad_tree.cpp:643-657 | one loop step of get_buckets appends the point to the bucket at its index only |
| TreeSpec.BucketsSnocAt | FastRankedPointsInPolygon/quad_tree.cpp:643-657 | one loop step of get_buckets turns the buckets of the slice into the buckets of the longer slice |
| TreeSpec.BucketsSnoc | FastRankedPointsInPolygon/quad_tree.cpp:643-657 | the same, stated with `c_pid` and `min_id` as the loop computes them |
| TreeSpec.BucketsPartition | FastRankedPointsInPolygon/quad_tree.cpp:627-659 | the four buckets of a slice sharing a key together hold exactly the slice's points (a partition, as multisets) |
| TreeSpec.BucketWithin | FastRankedPointsInPolygon/quad_tree.cpp:643-657 | a bucket holds only points of the slice |
| TreeSpec.ExtremesEnclose | FastRankedPointsInPolygon/quad_tree.cpp:412-425 | the running minima and maxima enclose every point of the slice |
| TreeSpec.BoundsEnclose | FastRankedPointsInPolygon/quad_tree.cpp:407-429 | `compute_bounds`, floored and ceiled, encloses every point of the slice |
| TreeSpec.ExtremesAttained | FastRankedPointsInPolygon/quad_tree.cpp:412-425 | for a non-empty slice of finite points, each extreme is a coordinate of some point |
| TreeSpec.SizeIsContents | FastRankedPointsInPolygon/quad_tree.cpp:588-600 | what `size_recursive` counts is the number of points the leaves hold |
| TreeSpec.WithinAppend | FastRankedPointsInPolygon/quad_tree.cpp:546-551 | filtering by the query distributes over concatenation |
| TreeSpec.WithinCount | FastRankedPointsInPolygon/quad_tree.cpp:546-551 | the filter keeps each point inside the query as often as it occurs, and drops the others |
| TreeSpec.WithinMultiset | FastRankedPointsInPolygon/quad_tree.cpp:546-551 | the filter depends only on the multiset of points |
| TreeSpec.WithinNone | FastRankedPointsInPolygon/quad_tree.cpp:544 | a slice with no point inside the query contributes nothing |
| TreeSpec.TraverseComplete | FastRankedPointsInPolygon/quad_tree.cpp:535-565 | on a tree whose node bounds enclose their points, the pruned traversal yields exactly the contents inside the query, in order |
| TreeSpec.BuildContents | FastRankedPointsInPolygon/quad_tree.cpp:443-533 | the leaves of the tree `build_tree` makes hold exactly the slice's points |
| TreeSpec.SlotContents | FastRankedPointsInPolygon/quad_tree.cpp:482-528 | the subtree of slot q holds exactly the points of bucket q |
| TreeSpec.BuildEnclosed | FastRankedPointsInPolygon/quad_tree.cpp:443-533 | every node `build_tree` makes has bounds enclosing the points under it |
| TreeSpec.SlotEnclosed | FastRankedPointsInPolygon/quad_tree.cpp:457-476 | every child `build_node` makes, bounded by `compute_bounds` of its bucket, is enclosed |
| TreeSpec.QueryFindsAll | FastRankedPointsInPolygon/quad_tree.h:320-339 | for every normalisation and block size, `query` on the tree built with Findings 1 and 4 corrected yields exactly the points inside the rectangle (as a multiset), and `size` is the number of points |
| QuadTree.Kept | FastRankedPointsInPolygon/quad_tree.h:234-257 | a node whose footprint is untouched keeps its validity, footprint and model |
| QuadTree.Node.constructor | FastRankedPointsInPolygon/quad_tree.cpp:317-325 | a node with the given key and bounds, no points and four empty child slots |
| QuadTree.Node.Attach | FastRankedPointsInPolygon/quad_tree.cpp:484-520 | the four built children stored in the slots keep the node valid and make its model the tree of its children |
| QuadTree.Node.SetChild | FastRankedPointsInPolygon/quad_tree.cpp:347-350 | `set_child` stores the pointer in the slot of its ChildId and leaves the other slots |
| QuadTree.Node.SetData | FastRankedPointsInPolygon/quad_tree.cpp:332-345 | `set_data` makes the node's points exactly the slice, in order, and changes nothing else |
| QuadTree.ComputeBounds | FastRankedPointsInPolygon/quad_tree.cpp:407-429 | the loop computes the floored and ceiled extremes of the slice |
| QuadTree.GetBuckets | FastRankedPointsInPolygon/quad_tree.cpp:627-659 | `get_buckets` with Findings 1 and 4 corrected returns the four children of the first point's key and, in order, the points of each child key |
| QuadTree.BucketRoomClosed | FastRankedPointsInPolygon/quad_tree.cpp:639-654 | as written, a bucket vector that has grown `g` times has room for `(g + 1) * (count / 4)` points, each quarter truncated |
| QuadTree.SmallSliceHasNoRoom | FastRankedPointsInPolygon/quad_tree.cpp:639-654 | for a slice of fewer than four points, the bucket vectors get no room however often they grow |
| QuadTree.BuildNode | FastRankedPointsInPolygon/quad_tree.cpp:457-476 | `build_node` makes a fresh node of the bucket's key with `compute_bounds` of the bucket; the depth `<= 0` branch is unreachable |
| QuadTree.BuildTree | FastRankedPointsInPolygon/quad_tree.cpp:443-533 | `build_tree` (over `get_buckets` with Findings 1 and 4 corrected) leaves a null node or an empty slice alone, and otherwise makes the node's model the value-level tree of the slice |
| QuadTree.BuildInternal | FastRankedPointsInPolygon/quad_tree.cpp:478-528 | a split node gets, in each slot, the subtree of its bucket |
| QuadTree.BuildQuad | FastRankedPointsInPolygon/quad_tree.cpp:482-528 | the four slot blocks build valid, pairwise disjoint children, each the subtree of its bucket |
| QuadTree.BuildPair | FastRankedPointsInPolygon/quad_tree.cpp:482-504 | two neighbouring slot blocks build disjoint children, each the subtree of its bucket |
| QuadTree.BuildChild | FastRankedPointsInPolygon/quad_tree.cpp:482-492 | one slot block: no child for an empty bucket, else a fresh child built one level down |
| QuadTree.TraverseTreeByBounds | FastRankedPointsInPolygon/quad_tree.cpp:535-565 | the points handed to the callback are the value-level traversal of the node's tree, in order |
| QuadTree.VisitLeaf | FastRankedPointsInPolygon/quad_tree.cpp:546-552 | a leaf hands over its points inside the query, in order |
| QuadTree.SizeRecursive | FastRankedPointsInPolygon/quad_tree.cpp:588-600 | `size_recursive` adds to the count the number of points in the leaves under the node |
| QuadTree.PointsToVector | FastRankedPointsInPolygon/quad_tree.cpp:661-674 | `points_to_vector` copies the array in order and returns its length |
| QuadTree.BuildRootNode | FastRankedPointsInPolygon/quad_tree.cpp:431-441 | `create` computes the global bounds and builds a root of key 1 over the points |
| QuadTree.Tree.constructor | FastRankedPointsInPolygon/quad_tree.cpp:370-382 | the iterator constructor: empty for an empty range, else built over the range |
| QuadTree.Tree.FromArray | FastRankedPointsInPolygon/quad_tree.cpp:352-368 | the pointer constructor: empty for a null range, else built over a copy of the array |
| QuadTree.Tree.Create | FastRankedPointsInPolygon/quad_tree.cpp:431-441 | `create` makes the tree valid over the points |
| QuadTree.Tree.GlobalBounds | FastRankedPointsInPolygon/quad_tree.cpp:389-392 | `global_bounds` is zero for an empty tree, else `compute_bounds` of its points |
| QuadTree.Tree.Size | FastRankedPointsInPolygon/quad_tree.cpp:567-572 | `size` is the number of points the tree was built from |
| QuadTree.Tree.Query | FastRankedPointsInPolygon/quad_tree.cpp:394-405 | `query` hands the callback exactly the tree's points inside the rectangle, each as often as it occurs |
| PointSearch.FirstWorse | FastRankedPointsInPolygon/point_search.cpp:88-101 | the slot the candidate goes to: every slot before it ranks no worse, and the slot itself ranks strictly worse |
| PointSearch.FirstWorseUnique | FastRankedPointsInPolygon/point_search.cpp:88-101 | that slot is the only one with both properties |
| PointSearch.Insert | FastRankedPointsInPolygon/point_search.cpp:86-106 | one candidate offered to a buffer holding at most `count` points leaves at most `count` |
| PointSearch.Select | FastRankedPointsInPolygon/point_search.cpp:79-108 | the candidates offered one by one keep at most `count` points |
| PointSearch.InsertShape | FastRankedPointsInPolygon/point_search.cpp:91-97 | a candidate worse than all `count` slots leaves the buffer unchanged; otherwise it lands in its slot, the slots before stay, the slots after shift by one, and the length grows up to `count` |
| PointSearch.InsertSorted | FastRankedPointsInPolygon/point_search.cpp:86-106 | insertion keeps the buffer sorted by rank |
| PointSearch.MultisetInsertAt | FastRankedPointsInPolygon/point_search.cpp:91-97 | inserting at a slot adds exactly the candidate to the buffer's multiset |
| PointSearch.InsertKeepsAll | FastRankedPointsInPolygon/point_search.cpp:86-106 | while the buffer has room, or when the candidate is passed over, no point is lost |
| PointSearch.InsertDropsLast | FastRankedPointsInPolygon/point_search.cpp:94-97 | in a full buffer, an inserted candidate pushes out exactly the last point |
| PointSearch.InsertMultiset | FastRankedPointsInPolygon/point_search.cpp:86-106 | insertion draws only on the buffer and the candidate, in each of the three cases |
| PointSearch.SelectLength | FastRankedPointsInPolygon/point_search.cpp:103-110 | the selection holds min(candidates, count) points |
| PointSearch.SelectSorted | FastRankedPointsInPolygon/point_search.cpp:79-108 | the selection is sorted by rank |
| PointSearch.SelectDrawn | FastRankedPointsInPolygon/point_search.cpp:79-108 | the selection is a sub-multiset of the candidates |
| PointSearch.SelectAll | FastRankedPointsInPolygon/point_search.cpp:79-108 | with no more candidates than `count`, every candidate is selected |
| PointSearch.PassedOverBeyond | FastRankedPointsInPolygon/point_search.cpp:81-84 | a candidate passed over ranks no better than any kept point |
| PointSearch.PushedOutBeyond | FastRankedPointsInPolygon/point_search.cpp:94-97 | the point pushed out ranks no better than any kept point |
| PointSearch.SelectBest | FastRankedPointsInPolygon/point_search.cpp:79-108 | no candidate left out ranks better than any selected point: the selection is a best `count` |
| PointSearch.SelectWithin | FastRankedPointsInPolygon/point_search.cpp:73-110 | over the points inside the rectangle in any order: min(matches, count) points, sorted, drawn from the matches, none left out better |
| PointSearch.SelectedInside | FastRankedPointsInPolygon/point_search.cpp:73-110 | every selected point is one of the context's points and lies inside the rectangle |
| PointSearch.UnitCornersWithin | FastRankedPointsInPolygon/point_search.cpp:73-76 | the four corners of the unit square all lie inside the closed unit rectangle |
| PointSearch.UnitCornerOfRank | FastRankedPointsInPolygon/point_search.cpp:88-101 | among the four corners, rank 10 picks the first and ranks up to 20 pick the first or second |
| PointSearch.UnitCornersBest | FastRankedPointsInPolygon/point_search.cpp:79-108 | a sorted best pair of the four corners is the first two corners |
| PointSearch.UnitCornersTopTwo | FastRankedPointsInPolygon/point_search.cpp:57-111 | a search for two points in the unit square returns, in whatever order the index yields the corners, the two best-ranked corners in rank order |
| PointSearch.WithinInside | FastRankedPointsInPolygon/quad_tree.cpp:32-42 | a point the filter keeps is a point of the slice inside the rectangle |
| PointSearch.SearchContext.constructor | FastRankedPointsInPolygon/point_search.cpp:22-30 | the context indexes exactly the given points |
| PointSearch.SearchContext.Intersecting | FastRankedPointsInPolygon/point_search.cpp:73-76 | the index's intersects query yields the points inside the rectangle, each as often as it occurs |
| PointSearch.Create | FastRankedPointsInPolygon/point_search.cpp:43-55 | `create` returns null exactly for an empty range, else a fresh context over the points |
| PointSearch.Destroy | FastRankedPointsInPolygon/point_search.cpp:113-122 | `destroy` always returns null |
| PointSearch.FillSentinels | FastRankedPointsInPolygon/point_search.cpp:67-71 | the first `count` slots get rank `INT32_MAX` with their other fields kept; the rest is untouched |
| PointSearch.ShiftedIsInsert | FastRankedPointsInPolygon/point_search.cpp:91-97 | the buffer after the shift, up to the new end, is the insertion of the candidate |
| PointSearch.Place | FastRankedPointsInPolygon/point_search.cpp:91-97 | the in-place store and shift of the slots from the candidate's slot up to the end, stopping at the last slot of the count |
| PointSearch.Offer | FastRankedPointsInPolygon/point_search.cpp:86-106 | one candidate's pass over the buffer: the filled prefix becomes the insertion of the candidate, the sentinels stay after it, nothing past `count` changes |
| PointSearch.PassedOver | FastRankedPointsInPolygon/point_search.cpp:81-84 | the early skip of a candidate ranked worse than the last slot of a full buffer agrees with insertion |
| PointSearch.Consider | FastRankedPointsInPolygon/point_search.cpp:79-106 | one loop iteration, skip included: the filled prefix becomes the insertion of the candidate and `end` is updated to the last filled slot |
| PointSearch.SelectInto | FastRankedPointsInPolygon/point_search.cpp:77-110 | the candidate loop fills the buffer with the selection of the candidates and returns its length |
| PointSearch.Search | FastRankedPointsInPolygon/point_search.cpp:57-111 | `search` with Findings 2 and 3 corrected: 0 and an untouched buffer for a null context, a non-positive count or a null buffer; otherwise min(matches, count) points, sorted by rank, drawn from the points inside the rectangle, none left out ranking better, with the other slots of the count at rank `INT32_MAX` |
| PointSearch.ScanAsWritten | FastRankedPointsInPolygon/point_search.cpp:88-101 | the scan as written stops at a slot at or after its start |
| PointSearch.ShiftReachesEnd | FastRankedPointsInPolygon/point_search.cpp:94-97 | the shift loop as written, once `end_i` is `count - 1` or more, writes outside the buffer |
| PointSearch.OfferWritesPastEnd | FastRankedPointsInPolygon/point_search.cpp:86-101 | a candidate inserted into a buffer whose `end_i` is the last slot makes the shift write past the end |
| PointSearch.ScanFindsNone | FastRankedPointsInPolygon/point_search.cpp:88-101 | a candidate no better than every slot scans to `count` |
| PointSearch.MaxRankCountedAsWritten | FastRankedPointsInPolygon/point_search.cpp:88-106 | as written, a candidate of rank `INT32_MAX` is never stored but sets `end_i` to `count` |

## Left out

- Floating point. The normalisation of a point's float coordinates into
  the 32-bit integer space (`quad_tree.cpp:132-149`) is the parameter
  `norm`. The conversion of decoded corners back to doubles
  (`quad_tree.cpp:243-252, 270-309`) is not modelled. `CellDecode` stops
  at the integer corners.
- Coordinates are exact reals. Floats in the finite range are assumed
  where it matters (`TreeSpec.Finite`); NaN and infinities are not modelled.
- The boost R-tree of the search context is replaced by a filter over the
  context's points in their order (`SearchContext.Intersecting`). The
  contract of `Search` holds for every order the index could yield, since
  `SelectWithin` only uses the multiset of candidates.
- The header declares the field `quad_tree_` (`point_search.h:26`), while
  `point_search.cpp` uses an R-tree field `rtree_`. The model follows the
  `.cpp`.
- The `std::ofstream` member, `tree()`, `write()`, the clock reads in the
  `SearchContext` constructor, the destructors, `destroy_tree` and memory
  release are not modelled. Dafny has no explicit deallocation.
- `print_tree` and `io.h` are not modelled (output only).
- `ipoint_search.h`, which defines `Point`, `Rect` and `DoubleRect`, is not
  part of this model. `Point.id` is an unbounded `int`.
- Pointer ranges (`begin`, `end`) and `std::vector<Point*>` are sequences
  of point values. No aliasing between the caller's points and the tree is
  modelled.
- `search` counters (`count`, `end_i`, `i`) are 32-bit in the source. The
  model computes with unbounded integers and the result converts back to
  `int32`, which fits since it is at most `count`.
- QuadTree.BuildChild: the source stores each child into its slot
  (`node->children_[i] = child`) before building it. The model builds each
  child first and stores all four with `Node.Attach`. The resulting tree is
  the same.
- QuadTree.Node.SetChild: a raw store with no ownership bookkeeping, so it
  does not keep `Valid`.
- QuadTree.BuildNode: the `depth <= 0` branch of `build_node`
  (`quad_tree.cpp:465-466`) is proved unreachable, since every bucket key is
  below the root. The model therefore has no call to
  `compute_bounds_for_quad_key` there.
- QuadTree.GetBuckets: models `get_buckets` with Findings 1 and 4
  corrected. It calls the documented `ComputeChildren`, which accepts
  `max_id(28)`. Each bucket is a sequence the loop appends to, with no
  vector capacity. As written, `get_buckets` throws `MaxDepthReached` for
  the depth-28 corner key (`quad_tree.cpp:634`, `:212-213`). It also writes
  outside its bucket vectors for slices of fewer than four points
  (`quad_tree.cpp:639-654`). `BucketRoomAsWritten` models that sizing.
- QuadTree.BuildTree: builds over the corrected `GetBuckets`, so it has
  the same two corrections. The `Tree` constructors, `Create` and
  `BuildRootNode` build through it.
- TreeSpec.QueryFindsAll: holds for the tree built with Findings 1 and 4
  corrected. For two inputs `build_tree` as written gives no tree to
  query:
  - more than `max_block_size` points in the upper-right corner cell at
    depth 28, where it throws;
  - `max_block_size` of 2 or less, where it writes out of range.
- PointSearch.Search: models `search` with Findings 2 and 3 corrected,
  through `Place` and `Offer`. As written (`OfferAsWritten`), `search`
  behaves differently in two ways:
  - it writes `out_points[count]` once the count-th match is stored;
  - it reports `count` filled slots after a match of rank `INT32_MAX`
    that it never stores.

  Ties between equal ranks are not pinned to an order. The contract gives
  a best `count`, but not which of several equal-ranked points is kept.
  The per-candidate choice is fixed by `FirstWorse`.
- The `children_` array of a node is a sequence of four slots.
- `min_block_size` is accepted and ignored, as in the source
  (`quad_tree.h:265-305`). `DefaultMinBlock` records its default.
- CellDecode.DeepestCellContains: that a point's key at a depth decodes to
  a cell containing the point is proved only at the deepest level, depth 29.
  At other depths, key stepping (`QuadKey.CellKeyStep`,
  `QuadKey.CellQuadrant`) and decode of cell keys (`DecodeCellKey`) are
  proved separately.
- Msb.MsbIndex: `msb64(0)` returns 0 as the code does
  (`quad_tree.cpp:73-87`). The header comment (`quad_tree.h:92-99`) says -1.
- QuadKey.StepSize: follows the code, `0xFFFFFFFF >> depth`. That is one
  less than the power of two 2^(32-depth) the cell width suggests; the
  contract states it.
- QuadTree.Tree.FromArray: the pointer constructor's null check on either
  end (`quad_tree.cpp:360-362`) is one `null` array. A non-null empty
  array is excluded by the `requires`. The source dereferences the first
  point of the empty range in `create` (`quad_tree.cpp:438`), which is
  undefined behaviour.
- The throws of `compute_bounds_for_quad_key` for infinite domains
  (`quad_tree.cpp:243-252`) belong to the float part and are not modelled.

## Findings

| source | as written | input that shows it | evidently intended | confidence | as-written member | corrected member |
|---|---|---|---|---|---|---|
| FastRankedPointsInPolygon/quad_tree.cpp:212-213 | `compute_children` rejects every `parent >= max_id(max_depth() - 1)`, so it rejects `max_id(28)`, a valid depth-28 key | parent `0x01FF_FFFF_FFFF_FFFF`: the key at depth 28 of the upper-right corner of the global bounds. `build_tree` throws on more than `max_block_size` points at that corner | reject only keys above depth 28, as the header says (`quad_tree.h:186-199`) | not executed | QuadKey.ComputeChildrenAsWritten (QuadKey.CornerChildren, QuadKey.CornerKey) | QuadKey.ComputeChildren |
| FastRankedPointsInPolygon/point_search.cpp:94-97 | the shift loop runs `while (i <= end_i) { ++i; swap(tmp, out_points[i]); }`, which writes slot `end_i + 1` | `end_i` counts the filled slots (it is 1 after the first store). With `count - 1` slots filled, storing the count-th match makes the loop write `out_points[count]`. Once `end_i == count`, every stored match writes up to `out_points[count + 1]`. The program's callers allocate exactly `count` slots | shift only up to the last slot of the count, dropping the last point | not executed | PointSearch.OfferWritesPastEnd (PointSearch.ShiftReachesEnd) | PointSearch.Place |
| FastRankedPointsInPolygon/point_search.cpp:88-106 | a candidate that beats no slot leaves `i == count`, and `i <= count && i > end_i` then sets `end_i = count` | a candidate of rank `INT32_MAX` with `end_i < count`: it is not stored, yet `search` returns `count` | two changes together: a candidate that beats no filled slot goes into the first empty slot (slot `end_i`) whatever its rank, including `INT32_MAX`; and `end_i` advances only when a candidate was stored | not executed | PointSearch.MaxRankCountedAsWritten (PointSearch.ScanFindsNone) | PointSearch.Offer |
| FastRankedPointsInPolygon/quad_tree.cpp:639-654 | each bucket vector is sized `count * .25` and grown by `0.25 * count`, both truncated to whole slots | a slice of 3 points split with `max_block_size` 2: every vector has size 0 and stays 0, so `vec[index] = &p` writes outside it | grow the vector by at least one slot (or append) | not executed | QuadTree.SmallSliceHasNoRoom (QuadTree.BucketRoomClosed, QuadTree.BucketRoomAsWritten) | QuadTree.GetBuckets |
