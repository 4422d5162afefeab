/** Construction of the bounding volume hierarchy (the BVHNode constructor,
    BVHNode.h:11-45). The constructor works on the range [start, end) of a
    vector of objects: one object becomes both children, two objects are
    ordered by the min corner of their boxes along a random axis, and a
    longer range is sorted in place along that axis and split in the middle,
    each half becoming a child node. The node's box surrounds the two
    children's boxes.

    What the constructor takes from outside is bundled in Choices: the
    random axis of each call, axisFor(start, end); the boxes of objects that
    are not hierarchy nodes, leafBox (see Objects.BoundingBox); and the
    sort. std::sort is not stable and leaves the order of objects with equal
    keys unspecified, so the sort is any function that returns a permutation
    of its argument ordered by key (SortByKey is one). The method Build
    works on an array in place and is proved to agree with the functions
    BuildTree and Arranged, about which the structural properties are
    proved. */
module Bvh {
  import opened Helpers
  import opened Vectors
  import opened Intervals
  import opened Rays
  import opened Boxes
  import opened HitRecords
  import opened Materials
  import opened Objects

  type AxisChoice = (nat, nat) -> Axis

  type Sorter = (seq<Object>, Axis) -> seq<Object>

  datatype Choices = Choices(axisFor: AxisChoice, leafBox: Object -> AABB, sort: Sorter)

  /** The sort key of the comparator: the min corner of the bounding box
      along the axis. */
  function Key(o: Object, axis: Axis, leafBox: Object -> AABB): real {
    BoundingBox(o, leafBox).min.At(axis)
  }

  predicate SortedByKey(s: seq<Object>, axis: Axis, leafBox: Object -> AABB) {
    forall i, j :: 0 <= i < j < |s| ==> Key(s[i], axis, leafBox) <= Key(s[j], axis, leafBox)
  }

  /** The sort returns a sequence as long as the range: all that the
      construction needs to be defined. */
  ghost predicate KeepsLength(sort: Sorter) {
    forall s, axis :: |sort(s, axis)| == |s|
  }

  /** The sort returns a permutation of the range. */
  ghost predicate Permuting(sort: Sorter) {
    forall s, axis :: multiset(sort(s, axis)) == multiset(s)
  }

  /** What std::sort with the axis comparator guarantees: the result is a
      permutation of the range, ordered by key. */
  ghost predicate IsKeySort(sort: Sorter, leafBox: Object -> AABB) {
    KeepsLength(sort) && Permuting(sort) && forall s, axis :: SortedByKey(sort(s, axis), axis, leafBox)
  }

  ghost predicate Valid(c: Choices) {
    KeepsLength(c.sort)
  }

  /** Insert x into a sequence after the leading elements whose key is not
      greater than x's. */
  function InsertByKey(x: Object, s: seq<Object>, axis: Axis, leafBox: Object -> AABB): (r: seq<Object>)
    ensures multiset(r) == multiset(s) + multiset{x}
    ensures |r| == |s| + 1
    decreases |s|
  {
    if |s| == 0 then [x]
    else if Key(x, axis, leafBox) < Key(s[0], axis, leafBox) then [x] + s
    else
      assert s == [s[0]] + s[1..];
      [s[0]] + InsertByKey(x, s[1..], axis, leafBox)
  }

  /** Inserting into a sorted sequence keeps it sorted. */
  lemma {:induction false} InsertByKeySorted(x: Object, s: seq<Object>, axis: Axis, leafBox: Object -> AABB)
    requires SortedByKey(s, axis, leafBox)
    ensures SortedByKey(InsertByKey(x, s, axis, leafBox), axis, leafBox)
    decreases |s|
  {
    if |s| > 0 && Key(x, axis, leafBox) >= Key(s[0], axis, leafBox) {
      var rest := InsertByKey(x, s[1..], axis, leafBox);
      InsertByKeySorted(x, s[1..], axis, leafBox);
      assert InsertByKey(x, s, axis, leafBox) == [s[0]] + rest;
      forall k | 0 <= k < |rest|
        ensures Key(s[0], axis, leafBox) <= Key(rest[k], axis, leafBox)
      {
        assert rest[k] in multiset(rest);
        if rest[k] != x {
          assert rest[k] in multiset(s[1..]);
          HeadKeyIsLeast(s, rest[k], axis, leafBox);
        }
      }
      ConsSorted(s[0], rest, axis, leafBox);
    }
  }

  /** An element whose key is at most every key of a sorted sequence can
      go in front of it. */
  lemma ConsSorted(h: Object, rest: seq<Object>, axis: Axis, leafBox: Object -> AABB)
    requires SortedByKey(rest, axis, leafBox)
    requires forall k :: 0 <= k < |rest| ==> Key(h, axis, leafBox) <= Key(rest[k], axis, leafBox)
    ensures SortedByKey([h] + rest, axis, leafBox)
  {
    var r := [h] + rest;
    forall i, j | 0 <= i < j < |r|
      ensures Key(r[i], axis, leafBox) <= Key(r[j], axis, leafBox)
    {
      assert r[j] == rest[j - 1];
      if i > 0 {
        assert r[i] == rest[i - 1];
      }
    }
  }

  /** In a sequence ordered by key, the head's key is at most that of any
      later element. */
  lemma HeadKeyIsLeast(s: seq<Object>, y: Object, axis: Axis, leafBox: Object -> AABB)
    requires |s| > 0 && SortedByKey(s, axis, leafBox) && y in s[1..]
    ensures Key(s[0], axis, leafBox) <= Key(y, axis, leafBox)
  {
    var j :| 0 <= j < |s[1..]| && s[1..][j] == y;
    assert s[j + 1] == y;
  }

  /** A stable insertion sort by key: one of the orders std::sort may
      produce. */
  function SortByKey(s: seq<Object>, axis: Axis, leafBox: Object -> AABB): (r: seq<Object>)
    ensures multiset(r) == multiset(s)
    ensures |r| == |s|
    decreases |s|
  {
    if |s| == 0 then []
    else
      var n := |s| - 1;
      assert s == s[..n] + [s[n]];
      InsertByKey(s[n], SortByKey(s[..n], axis, leafBox), axis, leafBox)
  }

  /** The insertion sort's result is ordered by key. */
  lemma {:induction false} SortByKeySorted(s: seq<Object>, axis: Axis, leafBox: Object -> AABB)
    ensures SortedByKey(SortByKey(s, axis, leafBox), axis, leafBox)
    decreases |s|
  {
    if |s| > 0 {
      var n := |s| - 1;
      var prefix := SortByKey(s[..n], axis, leafBox);
      assert SortByKey(s, axis, leafBox) == InsertByKey(s[n], prefix, axis, leafBox);
      SortByKeySorted(s[..n], axis, leafBox);
      InsertByKeySorted(s[n], prefix, axis, leafBox);
    }
  }

  /** The insertion sort meets what std::sort guarantees, so choices with it
      are valid. */
  lemma SortByKeyIsKeySort(leafBox: Object -> AABB)
    ensures IsKeySort((s: seq<Object>, axis: Axis) => SortByKey(s, axis, leafBox), leafBox)
  {
    forall s, axis
      ensures SortedByKey(SortByKey(s, axis, leafBox), axis, leafBox)
    {
      SortByKeySorted(s, axis, leafBox);
    }
  }

  /** A node with the two children and the box surrounding theirs. */
  function MakeNode(left: Object, right: Object, leafBox: Object -> AABB): (node: Object)
    ensures node.BVHNode? && node.left == left && node.right == right
    ensures node.box.Encloses(BoundingBox(left, leafBox)) && node.box.Encloses(BoundingBox(right, leafBox))
  {
    SurroundingBoxEnclosesBoth(BoundingBox(left, leafBox), BoundingBox(right, leafBox));
    BVHNode(left, right, SurroundingBox(BoundingBox(left, leafBox), BoundingBox(right, leafBox)))
  }

  /** The two halves a range of more than two objects is split into after
      sorting it along the axis of the call: the lower half goes to the left
      child. */
  function Lower(seg: seq<Object>, start: nat, c: Choices): (r: seq<Object>)
    requires |seg| > 2 && Valid(c)
    ensures |r| == |seg| / 2
  {
    c.sort(seg, c.axisFor(start, start + |seg|))[..|seg| / 2]
  }

  function Upper(seg: seq<Object>, start: nat, c: Choices): (r: seq<Object>)
    requires |seg| > 2 && Valid(c)
    ensures |r| == |seg| - |seg| / 2
    ensures Lower(seg, start, c) + r == c.sort(seg, c.axisFor(start, start + |seg|))
  {
    c.sort(seg, c.axisFor(start, start + |seg|))[|seg| / 2..]
  }

  /** The node the constructor builds on the objects seg = objects[start..end]. */
  function BuildTree(seg: seq<Object>, start: nat, c: Choices): (node: Object)
    requires |seg| >= 1 && Valid(c)
    ensures node.BVHNode?
    decreases |seg|
  {
    if |seg| == 1 then
      MakeNode(seg[0], seg[0], c.leafBox)
    else if |seg| == 2 then
      var axis := c.axisFor(start, start + 2);
      if Key(seg[0], axis, c.leafBox) < Key(seg[1], axis, c.leafBox) then
        MakeNode(seg[0], seg[1], c.leafBox)
      else
        MakeNode(seg[1], seg[0], c.leafBox)
    else
      MakeNode(BuildTree(Lower(seg, start, c), start, c),
               BuildTree(Upper(seg, start, c), start + |seg| / 2, c), c.leafBox)
  }

  /** The contents of objects[start..end] after the constructor: ranges of
      one or two objects are left as they are; a longer range is sorted and
      then each half is rearranged by the child constructor on it. */
  function Arranged(seg: seq<Object>, start: nat, c: Choices): (r: seq<Object>)
    requires |seg| >= 1 && Valid(c)
    ensures |r| == |seg|
    decreases |seg|
  {
    if |seg| <= 2 then seg
    else Arranged(Lower(seg, start, c), start, c) + Arranged(Upper(seg, start, c), start + |seg| / 2, c)
  }

  /** The constructor, on an array of objects: it builds BuildTree of the
      range, leaves the range as Arranged says and the rest of the array
      alone. The source requires start < end: with start == end it recurses
      on the same empty range for ever. */
  method Build(objects: array<Object>, start: nat, end: nat, c: Choices) returns (node: Object)
    requires start < end <= objects.Length && Valid(c)
    modifies objects
    ensures node == BuildTree(old(objects[start..end]), start, c)
    ensures objects[start..end] == Arranged(old(objects[start..end]), start, c)
    ensures forall j :: 0 <= j < start || end <= j < objects.Length ==> objects[j] == old(objects[j])
    decreases end - start, 1
  {
    ghost var seg := objects[start..end];
    var axis := c.axisFor(start, end);
    var objectSpan := end - start;
    if objectSpan == 1 {
      assert seg == [objects[start]];
      node := MakeNode(objects[start], objects[start], c.leafBox);
    } else if objectSpan == 2 {
      assert seg == [objects[start], objects[start + 1]];
      if Key(objects[start], axis, c.leafBox) < Key(objects[start + 1], axis, c.leafBox) {
        node := MakeNode(objects[start], objects[start + 1], c.leafBox);
      } else {
        node := MakeNode(objects[start + 1], objects[start], c.leafBox);
      }
    } else {
      node := BuildSplit(objects, start, end, axis, c);
    }
  }

  /** The constructor on more than two objects: sort the range along the
      axis, split it in the middle and build a node on each half. */
  method BuildSplit(objects: array<Object>, start: nat, end: nat, axis: Axis, c: Choices) returns (node: Object)
    requires start + 2 < end <= objects.Length && Valid(c) && axis == c.axisFor(start, end)
    modifies objects
    ensures node == BuildTree(old(objects[start..end]), start, c)
    ensures objects[start..end] == Arranged(old(objects[start..end]), start, c)
    ensures forall j :: 0 <= j < start || end <= j < objects.Length ==> objects[j] == old(objects[j])
    decreases end - start, 0
  {
    ghost var seg := objects[start..end];
    SortRange(objects, start, end, axis, c);
    ghost var sortedSeg := objects[start..end];
    var mid := start + (end - start) / 2;
    assert end == start + |seg| && mid == start + |seg| / 2;
    ghost var lowerIn := objects[start..mid];
    ghost var sorted := objects[..];
    Concat(sorted, start, mid, end);
    var left := Build(objects, start, mid, c);
    ghost var lowerOut := objects[start..mid];
    ghost var upperIn := objects[mid..end];
    ghost var leftDone := objects[..];
    SameSlice(leftDone, sorted, mid, end);
    var right := Build(objects, mid, end, c);
    ghost var upperOut := objects[mid..end];
    SameSlice(objects[..], leftDone, start, mid);
    Concat(objects[..], start, mid, end);
    SplitTree(seg, start, mid, end, c, sortedSeg, lowerIn, upperIn, left, right);
    SplitArranged(seg, start, mid, end, c, sortedSeg, lowerIn, upperIn, lowerOut, upperOut);
    node := MakeNode(left, right, c.leafBox);
  }

  /** a[lo..mid] and a[mid..hi] make up a[lo..hi]. */
  lemma Concat<T>(a: seq<T>, lo: nat, mid: nat, hi: nat)
    requires lo <= mid <= hi <= |a|
    ensures a[lo..mid] + a[mid..hi] == a[lo..hi]
  {
    assert forall k :: 0 <= k < hi - lo ==> (a[lo..mid] + a[mid..hi])[k] == a[lo..hi][k];
  }

  /** Two sequences that agree on [lo, hi) have the same slice there. */
  lemma SameSlice<T>(a: seq<T>, b: seq<T>, lo: nat, hi: nat)
    requires lo <= hi <= |a| && hi <= |b|
    requires forall j :: lo <= j < hi ==> a[j] == b[j]
    ensures a[lo..hi] == b[lo..hi]
  {
    assert forall k :: 0 <= k < hi - lo ==> a[lo..hi][k] == b[lo..hi][k];
  }

  /** The halves of the sorted range are the lower and upper halves of the
      specification. */
  lemma Halves(seg: seq<Object>, start: nat, mid: nat, end: nat, c: Choices,
               sortedSeg: seq<Object>, lowerIn: seq<Object>, upperIn: seq<Object>)
    requires |seg| > 2 && end == start + |seg| && mid == start + |seg| / 2 && Valid(c)
    requires sortedSeg == c.sort(seg, c.axisFor(start, end))
    requires lowerIn + upperIn == sortedSeg && |lowerIn| == mid - start
    ensures lowerIn == Lower(seg, start, c) && upperIn == Upper(seg, start, c)
  {
    var lower := Lower(seg, start, c);
    var upper := Upper(seg, start, c);
    assert lower + upper == lowerIn + upperIn;
    assert forall k :: 0 <= k < |lowerIn| ==> lowerIn[k] == (lowerIn + upperIn)[k] == lower[k];
    assert forall k :: 0 <= k < |upperIn| ==> upperIn[k] == (lowerIn + upperIn)[k + |lowerIn|] == upper[k];
  }

  /** The node BuildSplit returns is the one the specification builds. */
  lemma SplitTree(seg: seq<Object>, start: nat, mid: nat, end: nat, c: Choices,
                  sortedSeg: seq<Object>, lowerIn: seq<Object>, upperIn: seq<Object>, left: Object, right: Object)
    requires |seg| > 2 && end == start + |seg| && mid == start + |seg| / 2 && Valid(c)
    requires sortedSeg == c.sort(seg, c.axisFor(start, end))
    requires lowerIn + upperIn == sortedSeg && |lowerIn| == mid - start
    requires left == BuildTree(lowerIn, start, c) && right == BuildTree(upperIn, mid, c)
    ensures MakeNode(left, right, c.leafBox) == BuildTree(seg, start, c)
  {
    Halves(seg, start, mid, end, c, sortedSeg, lowerIn, upperIn);
    UnfoldTree(seg, start, c);
  }

  /** One step of BuildTree on a range of more than two objects. */
  lemma UnfoldTree(seg: seq<Object>, start: nat, c: Choices)
    requires |seg| > 2 && Valid(c)
    ensures BuildTree(seg, start, c) ==
      MakeNode(BuildTree(Lower(seg, start, c), start, c), BuildTree(Upper(seg, start, c), start + |seg| / 2, c), c.leafBox)
  {
  }

  /** The contents BuildSplit leaves are the ones the specification gives. */
  lemma SplitArranged(seg: seq<Object>, start: nat, mid: nat, end: nat, c: Choices,
                      sortedSeg: seq<Object>, lowerIn: seq<Object>, upperIn: seq<Object>,
                      lowerOut: seq<Object>, upperOut: seq<Object>)
    requires |seg| > 2 && end == start + |seg| && mid == start + |seg| / 2 && Valid(c)
    requires sortedSeg == c.sort(seg, c.axisFor(start, end))
    requires lowerIn + upperIn == sortedSeg && |lowerIn| == mid - start
    requires lowerOut == Arranged(lowerIn, start, c) && upperOut == Arranged(upperIn, mid, c)
    ensures lowerOut + upperOut == Arranged(seg, start, c)
  {
    Halves(seg, start, mid, end, c, sortedSeg, lowerIn, upperIn);
    UnfoldArranged(seg, start, mid, c);
  }

  /** One step of Arranged on a range of more than two objects. */
  lemma UnfoldArranged(seg: seq<Object>, start: nat, mid: nat, c: Choices)
    requires |seg| > 2 && Valid(c) && mid == start + |seg| / 2
    ensures Arranged(seg, start, c) ==
      Arranged(Lower(seg, start, c), start, c) + Arranged(Upper(seg, start, c), mid, c)
  {
  }

  /** std::sort on [start, end): the range ends up in the order of the sort;
      nothing else in the array changes. */
  method SortRange(objects: array<Object>, start: nat, end: nat, axis: Axis, c: Choices)
    requires start <= end <= objects.Length && Valid(c)
    modifies objects
    ensures objects[start..end] == c.sort(old(objects[start..end]), axis)
    ensures forall j :: 0 <= j < start || end <= j < objects.Length ==> objects[j] == old(objects[j])
  {
    var sorted := c.sort(objects[start..end], axis);
    var i := 0;
    while i < |sorted|
      invariant 0 <= i <= |sorted| == end - start
      invariant forall j :: start <= j < start + i ==> objects[j] == sorted[j - start]
      invariant forall j :: 0 <= j < start || start + i <= j < objects.Length ==> objects[j] == old(objects[j])
    {
      objects[start + i] := sorted[i];
      i := i + 1;
    }
    assert forall k :: 0 <= k < |sorted| ==> objects[start..end][k] == sorted[k];
  }

  /** Every object reachable as a leaf of a hierarchy: the object itself
      unless it is a hierarchy node. */
  function Leaves(o: Object): set<Object> {
    if o.BVHNode? then Leaves(o.left) + Leaves(o.right) else {o}
  }

  function LeavesOf(s: seq<Object>): set<Object> {
    set x, o | x in s && o in Leaves(x) :: o
  }

  lemma LeavesOfAppend(a: seq<Object>, b: seq<Object>)
    ensures LeavesOf(a + b) == LeavesOf(a) + LeavesOf(b)
  {
    assert forall x :: x in a + b <==> x in a || x in b;
  }

  lemma LeavesOfPermutation(a: seq<Object>, b: seq<Object>)
    requires multiset(a) == multiset(b)
    ensures LeavesOf(a) == LeavesOf(b)
  {
    assert forall x :: x in a <==> x in multiset(a);
    assert forall x :: x in b <==> x in multiset(b);
  }

  /** The construction only permutes the range. */
  lemma {:induction false} ArrangedPermutes(seg: seq<Object>, start: nat, c: Choices)
    requires |seg| >= 1 && Valid(c) && Permuting(c.sort)
    ensures multiset(Arranged(seg, start, c)) == multiset(seg)
    decreases |seg|
  {
    if |seg| > 2 {
      var lower := Lower(seg, start, c);
      var upper := Upper(seg, start, c);
      ArrangedPermutes(lower, start, c);
      ArrangedPermutes(upper, start + |seg| / 2, c);
      SplitPermutes(seg, start, c);
    }
  }

  /** The two halves hold the objects of the range. */
  lemma SplitPermutes(seg: seq<Object>, start: nat, c: Choices)
    requires |seg| > 2 && Valid(c) && Permuting(c.sort)
    ensures multiset(Lower(seg, start, c)) + multiset(Upper(seg, start, c)) == multiset(seg)
  {
    assert multiset(Lower(seg, start, c) + Upper(seg, start, c)) == multiset(seg);
  }

  /** A node's leaves are its children's. */
  lemma LeavesOfNode(left: Object, right: Object, leafBox: Object -> AABB)
    ensures Leaves(MakeNode(left, right, leafBox)) == Leaves(left) + Leaves(right)
  {
  }

  /** Every object of the range ends up as a leaf of the tree, and nothing
      else does. */
  lemma {:induction false} BuildKeepsLeaves(seg: seq<Object>, start: nat, c: Choices)
    requires |seg| >= 1 && Valid(c) && Permuting(c.sort)
    ensures Leaves(BuildTree(seg, start, c)) == LeavesOf(seg)
    decreases |seg|
  {
    if |seg| == 1 {
      assert LeavesOf(seg) == Leaves(seg[0]) by {
        assert forall x :: x in seg <==> x == seg[0];
      }
      LeavesOfNode(seg[0], seg[0], c.leafBox);
    } else if |seg| == 2 {
      assert LeavesOf(seg) == Leaves(seg[0]) + Leaves(seg[1]) by {
        assert forall x :: x in seg <==> x == seg[0] || x == seg[1];
      }
      LeavesOfNode(seg[0], seg[1], c.leafBox);
      LeavesOfNode(seg[1], seg[0], c.leafBox);
    } else {
      var lower := Lower(seg, start, c);
      var upper := Upper(seg, start, c);
      BuildKeepsLeaves(lower, start, c);
      BuildKeepsLeaves(upper, start + |seg| / 2, c);
      LeavesOfNode(BuildTree(lower, start, c), BuildTree(upper, start + |seg| / 2, c), c.leafBox);
      LeavesOfAppend(lower, upper);
      LeavesOfPermutation(lower + upper, seg);
    }
  }

  /** The box of the tree encloses the box of every object of the range. */
  lemma {:induction false} BuildEncloses(seg: seq<Object>, start: nat, c: Choices)
    requires |seg| >= 1 && Valid(c) && Permuting(c.sort)
    ensures forall x :: x in seg ==> BuildTree(seg, start, c).box.Encloses(BoundingBox(x, c.leafBox))
    decreases |seg|
  {
    if |seg| > 2 {
      var lower := Lower(seg, start, c);
      var upper := Upper(seg, start, c);
      var left := BuildTree(lower, start, c);
      var right := BuildTree(upper, start + |seg| / 2, c);
      var node := BuildTree(seg, start, c);
      assert node == MakeNode(left, right, c.leafBox);
      BuildEncloses(lower, start, c);
      BuildEncloses(upper, start + |seg| / 2, c);
      SplitPermutes(seg, start, c);
      EnclosesHalves(node.box, left.box, right.box, lower, upper, seg, c.leafBox);
    }
  }

  /** A box enclosing the boxes of the two halves encloses the box of every
      object of the range. */
  lemma EnclosesHalves(box: AABB, leftBox: AABB, rightBox: AABB,
                       lower: seq<Object>, upper: seq<Object>, s: seq<Object>, leafBox: Object -> AABB)
    requires box.Encloses(leftBox) && box.Encloses(rightBox)
    requires forall x :: x in lower ==> leftBox.Encloses(BoundingBox(x, leafBox))
    requires forall x :: x in upper ==> rightBox.Encloses(BoundingBox(x, leafBox))
    requires multiset(lower) + multiset(upper) == multiset(s)
    ensures forall x :: x in s ==> box.Encloses(BoundingBox(x, leafBox))
  {
    forall x | x in s
      ensures box.Encloses(BoundingBox(x, leafBox))
    {
      assert x in multiset(s);
      if x in lower {
        EnclosesTransitive(box, leftBox, BoundingBox(x, leafBox));
      } else {
        assert x in multiset(upper);
        EnclosesTransitive(box, rightBox, BoundingBox(x, leafBox));
      }
    }
  }

  /** Traversal (BVHNode::rayHit). With a box test that lets the ray through
      every box, the hierarchy reports a hit exactly when one of its leaves
      does, the hit is one of theirs, and no leaf has a nearer one. */
  lemma {:induction false} TraversalFindsNearest(o: Object, ray: Ray, interval: Interval,
                                                 boxHit: BoxTest, sqrt: real -> real)
    requires forall b: AABB :: boxHit(b, ray, interval)
    ensures RayHit(o, ray, interval, boxHit, sqrt).None? <==>
      forall x :: x in Leaves(o) ==> RayHit(x, ray, interval, boxHit, sqrt).None?
    ensures RayHit(o, ray, interval, boxHit, sqrt).Some? ==>
      exists x :: x in Leaves(o) && RayHit(x, ray, interval, boxHit, sqrt) == RayHit(o, ray, interval, boxHit, sqrt)
    ensures RayHit(o, ray, interval, boxHit, sqrt).Some? ==>
      forall x :: x in Leaves(o) && RayHit(x, ray, interval, boxHit, sqrt).Some? ==>
        RayHit(o, ray, interval, boxHit, sqrt).value.t <= RayHit(x, ray, interval, boxHit, sqrt).value.t
    decreases o
  {
    if o.BVHNode? {
      TraversalFindsNearest(o.left, ray, interval, boxHit, sqrt);
      TraversalFindsNearest(o.right, ray, interval, boxHit, sqrt);
      var leftHit := RayHit(o.left, ray, interval, boxHit, sqrt);
      var rightHit := RayHit(o.right, ray, interval, boxHit, sqrt);
      assert RayHit(o, ray, interval, boxHit, sqrt) == NearerHit(leftHit, rightHit);
    }
  }

  /** With two objects, the first goes left exactly when its key is
      strictly smaller; on a tie the second goes left. */
  lemma PairOrder(seg: seq<Object>, start: nat, c: Choices)
    requires |seg| == 2 && Valid(c)
    ensures var axis := c.axisFor(start, start + 2);
            var node := BuildTree(seg, start, c);
            (Key(seg[0], axis, c.leafBox) < Key(seg[1], axis, c.leafBox) ==> node.left == seg[0] && node.right == seg[1]) &&
            (Key(seg[0], axis, c.leafBox) >= Key(seg[1], axis, c.leafBox) ==> node.left == seg[1] && node.right == seg[0])
  {
  }

  /** The number of nested constructor calls for a range of n objects. */
  function CallDepth(n: nat): (d: nat)
    requires n >= 1
    ensures d >= 1
  {
    if n <= 2 then 1 else 1 + Max2(CallDepth(n / 2), CallDepth(n - n / 2))
  }

  /** CallDepth follows BuildTree's split: a range of more than two objects
      takes one call more than the deeper of the two halves it passes to the
      child constructors. */
  lemma CallDepthFollowsSplit(seg: seq<Object>, start: nat, c: Choices)
    requires |seg| > 2 && Valid(c)
    ensures CallDepth(|seg|) ==
      1 + Max2(CallDepth(|Lower(seg, start, c)|), CallDepth(|Upper(seg, start, c)|))
  {
  }

  function Max2(a: nat, b: nat): nat {
    if a < b then b else a
  }

  function Pow2(k: nat): (p: nat)
    ensures p >= 1
  {
    if k == 0 then 1 else 2 * Pow2(k - 1)
  }

  lemma {:induction false} Pow2Monotone(j: nat, k: nat)
    requires j <= k
    ensures Pow2(j) <= Pow2(k)
    decreases k
  {
    if j < k {
      Pow2Monotone(j, k - 1);
    }
  }

  /** The split halves the range, so the recursion is logarithmic: for a
      range of n >= 2 objects, 2^(d-1) < n <= 2^d where d is the call depth,
      that is d == ceil(log2 n). */
  lemma {:induction false} CallDepthLogarithmic(n: nat)
    requires n >= 2
    ensures Pow2(CallDepth(n) - 1) < n <= Pow2(CallDepth(n))
    decreases n
  {
    if n > 2 {
      var b := n - n / 2;
      CallDepthMonotone(n / 2, b);
      var d := CallDepth(b);
      assert CallDepth(n) == 1 + d;
      CallDepthLogarithmic(b);
      assert Pow2(d) == 2 * Pow2(d - 1);
      assert Pow2(d + 1) == 2 * Pow2(d);
    }
  }

  lemma {:induction false} CallDepthMonotone(a: nat, b: nat)
    requires 1 <= a <= b
    ensures CallDepth(a) <= CallDepth(b)
    decreases b
  {
    if a > 2 {
      CallDepthMonotone(a / 2, b / 2);
      CallDepthMonotone(a - a / 2, b - b / 2);
    }
  }
}
