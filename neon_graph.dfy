/** The neon org graph (src/components/NeonOrgGraph.tsx): flattening the nested
    groups into depth-annotated nodes and parent-to-child edges, the radial
    ring layout by depth, and the search that picks the group to focus. */
module NeonGraph {
  import opened Common
  import opened Text
  import opened OrgData

  const NodeWidth: nat := 220
  const NodeHeight: nat := 88
  /** Spacing between neighbouring nodes on a ring. */
  const MinMargin: nat := 24

  datatype FlatNode = FlatNode(id: string, name: string, iconKey: string, count: nat, depth: nat)
  datatype FlatEdge = FlatEdge(source: string, target: string)

  // ---------------------------------------------------------------------------
  // flattenGroups
  // ---------------------------------------------------------------------------

  /** The node pushed for group `g` at nesting depth `depth`. */
  function NodeOf(g: OrgGroup, depth: nat): FlatNode {
    FlatNode(g.id, g.name, g.icon, MemberCount(g), depth)
  }

  /** The nodes `flattenGroups(groups, depth)` returns, defined the way its
      loop builds them: everything for the groups before the last one, then the
      last group's node, then its subtree one level deeper. */
  function FlatNodes(groups: seq<OrgGroup>, depth: nat): seq<FlatNode>
    decreases groups
  {
    if groups == [] then []
    else
      var last := groups[|groups| - 1];
      FlatNodes(groups[..|groups| - 1], depth) + [NodeOf(last, depth)] + FlatNodes(last.children, depth + 1)
  }

  /** The edges `flattenGroups(groups, depth, parentId)` returns: an edge from
      the parent to each group when the parent id is truthy, then the edges of
      each group's subtree, whose parent is that group. */
  function FlatEdges(groups: seq<OrgGroup>, parent: Option<string>): seq<FlatEdge>
    decreases groups
  {
    if groups == [] then []
    else
      var last := groups[|groups| - 1];
      FlatEdges(groups[..|groups| - 1], parent)
        + (if Truthy(parent) then [FlatEdge(parent.value, last.id)] else [])
        + FlatEdges(last.children, Some(last.id))
  }

  /** `flattenGroups`: a loop over the groups that pushes each group's node and
      its edge from the parent, and recursively flattens non-empty child lists. */
  method FlattenGroups(groups: seq<OrgGroup>, depth: nat, parent: Option<string>)
    returns (nodes: seq<FlatNode>, edges: seq<FlatEdge>)
    ensures nodes == FlatNodes(groups, depth)
    ensures edges == FlatEdges(groups, parent)
    decreases groups
  {
    nodes, edges := [], [];
    var i := 0;
    while i < |groups|
      invariant 0 <= i <= |groups|
      invariant nodes == FlatNodes(groups[..i], depth)
      invariant edges == FlatEdges(groups[..i], parent)
    {
      var g := groups[i];
      FlatStep(groups, i, depth, parent);
      nodes := nodes + [NodeOf(g, depth)];
      edges := edges + if Truthy(parent) then [FlatEdge(parent.value, g.id)] else [];
      var childNodes, childEdges := [], [];
      if g.children != [] {
        childNodes, childEdges := FlattenGroups(g.children, depth + 1, Some(g.id));
      }
      assert childNodes == FlatNodes(g.children, depth + 1) && childEdges == FlatEdges(g.children, Some(g.id));
      nodes := nodes + childNodes;
      edges := edges + childEdges;
      i := i + 1;
    }
    assert groups[..i] == groups;
  }

  /** The loop's step: one more group adds its node and edge, then its subtree. */
  lemma FlatStep(groups: seq<OrgGroup>, i: nat, depth: nat, parent: Option<string>)
    requires i < |groups|
    ensures FlatNodes(groups[..i + 1], depth)
            == FlatNodes(groups[..i], depth) + [NodeOf(groups[i], depth)] + FlatNodes(groups[i].children, depth + 1)
    ensures FlatEdges(groups[..i + 1], parent)
            == FlatEdges(groups[..i], parent)
               + (if Truthy(parent) then [FlatEdge(parent.value, groups[i].id)] else [])
               + FlatEdges(groups[i].children, Some(groups[i].id))
  {
    var done := groups[..i + 1];
    assert done[..i] == groups[..i] && done[i] == groups[i];
  }

  /** Pre-order, written the textbook way: a group, then its subtree, then its
      later siblings. */
  function PreOrder(groups: seq<OrgGroup>, depth: nat): seq<FlatNode>
    decreases groups
  {
    if groups == [] then []
    else [NodeOf(groups[0], depth)] + PreOrder(groups[0].children, depth + 1) + PreOrder(groups[1..], depth)
  }

  lemma {:induction false} PreOrderAppend(a: seq<OrgGroup>, b: seq<OrgGroup>, depth: nat)
    ensures PreOrder(a + b, depth) == PreOrder(a, depth) + PreOrder(b, depth)
    decreases a
  {
    if a != [] {
      assert (a + b)[0] == a[0];
      assert (a + b)[1..] == a[1..] + b;
      PreOrderAppend(a[1..], b, depth);
    } else {
      assert a + b == b;
    }
  }

  /** The nodes come out in pre-order: each group once, before its children,
      siblings in source order, each at its nesting depth. */
  lemma {:induction false} FlatNodesArePreOrder(groups: seq<OrgGroup>, depth: nat)
    ensures FlatNodes(groups, depth) == PreOrder(groups, depth)
    decreases groups
  {
    if groups != [] {
      var init, last := groups[..|groups| - 1], groups[|groups| - 1];
      FlatNodesArePreOrder(init, depth);
      FlatNodesArePreOrder(last.children, depth + 1);
      assert groups == init + [last];
      PreOrderAppend(init, [last], depth);
      assert PreOrder([last], depth) == [NodeOf(last, depth)] + PreOrder(last.children, depth + 1) + PreOrder([], depth);
    }
  }

  /** Every group of the list appears as a node at the list's depth. */
  lemma {:induction false} GroupsAreNodes(groups: seq<OrgGroup>, depth: nat)
    ensures forall i :: 0 <= i < |groups| ==> NodeOf(groups[i], depth) in FlatNodes(groups, depth)
    decreases groups
  {
    if groups != [] {
      var init, last := groups[..|groups| - 1], groups[|groups| - 1];
      GroupsAreNodes(init, depth);
      forall i | 0 <= i < |groups| ensures NodeOf(groups[i], depth) in FlatNodes(groups, depth) {
        if i < |groups| - 1 {
          assert groups[i] == init[i];
        }
      }
    }
  }

  /** All groups of the tree have non-empty ids. */
  ghost predicate NonEmptyIds(groups: seq<OrgGroup>)
    decreases groups
  {
    forall i :: 0 <= i < |groups| ==> groups[i].id != "" && NonEmptyIds(groups[i].children)
  }

  /** One edge per group below the top level and none for the top level:
      #edges = #nodes - #top-level groups (when the ids are non-empty). */
  lemma {:induction false} EdgeCount(groups: seq<OrgGroup>, depth: nat, parent: Option<string>)
    requires NonEmptyIds(groups)
    ensures |FlatEdges(groups, parent)| + (if Truthy(parent) then 0 else |groups|) == |FlatNodes(groups, depth)|
    decreases groups
  {
    if groups != [] {
      var init, last := groups[..|groups| - 1], groups[|groups| - 1];
      assert NonEmptyIds(init) by {
        forall i | 0 <= i < |init| ensures init[i] == groups[i] { }
      }
      EdgeCount(init, depth, parent);
      EdgeCount(last.children, depth + 1, Some(last.id));
    }
  }

  /** The edge joins two nodes, the parent earlier and the child one level deeper. */
  ghost predicate EdgeWithin(nodes: seq<FlatNode>, e: FlatEdge) {
    exists i, j :: 0 <= i < j < |nodes| && nodes[i].id == e.source && nodes[j].id == e.target
      && nodes[j].depth == nodes[i].depth + 1
  }

  /** The edge comes from the enclosing parent into a node at depth `depth`. */
  ghost predicate EdgeFromParent(nodes: seq<FlatNode>, e: FlatEdge, parent: string, depth: nat) {
    e.source == parent && exists j :: 0 <= j < |nodes| && nodes[j].id == e.target && nodes[j].depth == depth
  }

  lemma EdgeWithinGrows(a: seq<FlatNode>, b: seq<FlatNode>, e: FlatEdge)
    ensures EdgeWithin(a, e) ==> EdgeWithin(a + b, e)
    ensures EdgeWithin(b, e) ==> EdgeWithin(a + b, e)
  {
    if EdgeWithin(a, e) {
      var i, j :| 0 <= i < j < |a| && a[i].id == e.source && a[j].id == e.target && a[j].depth == a[i].depth + 1;
      assert (a + b)[i] == a[i] && (a + b)[j] == a[j];
    }
    if EdgeWithin(b, e) {
      var i, j :| 0 <= i < j < |b| && b[i].id == e.source && b[j].id == e.target && b[j].depth == b[i].depth + 1;
      assert (a + b)[|a| + i] == b[i] && (a + b)[|a| + j] == b[j];
    }
  }

  lemma EdgeFromParentGrows(a: seq<FlatNode>, b: seq<FlatNode>, e: FlatEdge, parent: string, depth: nat)
    ensures EdgeFromParent(a, e, parent, depth) ==> EdgeFromParent(a + b, e, parent, depth)
    ensures EdgeFromParent(b, e, parent, depth) ==> EdgeFromParent(a + b, e, parent, depth)
  {
    if EdgeFromParent(a, e, parent, depth) {
      var j :| 0 <= j < |a| && a[j].id == e.target && a[j].depth == depth;
      assert (a + b)[j] == a[j];
    }
    if EdgeFromParent(b, e, parent, depth) {
      var j :| 0 <= j < |b| && b[j].id == e.target && b[j].depth == depth;
      assert (a + b)[|a| + j] == b[j];
    }
  }

  /** Inside the block [node of g] + subtree of g, an edge from g into its
      subtree joins the block's first node to a later, one-level-deeper node. */
  lemma BlockEdge(g: OrgGroup, depth: nat, sub: seq<FlatNode>, e: FlatEdge)
    requires EdgeWithin(sub, e) || EdgeFromParent(sub, e, g.id, depth + 1)
    ensures EdgeWithin([NodeOf(g, depth)] + sub, e)
  {
    var block := [NodeOf(g, depth)] + sub;
    if EdgeWithin(sub, e) {
      EdgeWithinGrows([NodeOf(g, depth)], sub, e);
    } else {
      var j :| 0 <= j < |sub| && sub[j].id == e.target && sub[j].depth == depth + 1;
      assert block[0].id == e.source && block[j + 1] == sub[j];
    }
  }

  /** Where the edges of a flattening point: each joins two of its nodes, parent
      before child and one level apart, or leaves the truthy enclosing parent for
      one of its top-level nodes. */
  lemma {:induction false} EdgesLocated(groups: seq<OrgGroup>, depth: nat, parent: Option<string>)
    ensures forall k :: 0 <= k < |FlatEdges(groups, parent)| ==>
      || EdgeWithin(FlatNodes(groups, depth), FlatEdges(groups, parent)[k])
      || (Truthy(parent) && EdgeFromParent(FlatNodes(groups, depth), FlatEdges(groups, parent)[k], parent.value, depth))
    decreases groups
  {
    if groups != [] {
      var init, last := groups[..|groups| - 1], groups[|groups| - 1];
      EdgesLocated(init, depth, parent);
      EdgesLocated(last.children, depth + 1, Some(last.id));
      var nInit, sub := FlatNodes(init, depth), FlatNodes(last.children, depth + 1);
      var block := [NodeOf(last, depth)] + sub;
      var eInit := FlatEdges(init, parent);
      var top := if Truthy(parent) then [FlatEdge(parent.value, last.id)] else [];
      var eSub := FlatEdges(last.children, Some(last.id));
      var nodes, edges := FlatNodes(groups, depth), FlatEdges(groups, parent);
      assert nodes == nInit + block;
      assert edges == eInit + top + eSub;
      forall k | 0 <= k < |edges|
        ensures || EdgeWithin(nodes, edges[k])
                || (Truthy(parent) && EdgeFromParent(nodes, edges[k], parent.value, depth))
      {
        var e := edges[k];
        if k < |eInit| {
          assert e == eInit[k];
          EdgeWithinGrows(nInit, block, e);
          if Truthy(parent) {
            EdgeFromParentGrows(nInit, block, e, parent.value, depth);
          }
        } else if k < |eInit| + |top| {
          assert e == FlatEdge(parent.value, last.id);
          assert block[0].id == last.id && block[0].depth == depth;
          assert EdgeFromParent(block, e, parent.value, depth);
          EdgeFromParentGrows(nInit, block, e, parent.value, depth);
        } else {
          assert e == eSub[k - |eInit| - |top|];
          BlockEdge(last, depth, sub, e);
          EdgeWithinGrows(nInit, block, e);
        }
      }
    }
  }

  /** The whole chart flattened from the top (no parent id): every edge joins
      two emitted nodes, the parent's node earlier and the child's one level
      deeper, so no edge dangles. */
  lemma EdgesJoinNodes(groups: seq<OrgGroup>)
    ensures forall k :: 0 <= k < |FlatEdges(groups, None)| ==>
      EdgeWithin(FlatNodes(groups, 0), FlatEdges(groups, None)[k])
  {
    EdgesLocated(groups, 0, None);
  }

  /** The published chart flattens to its thirteen groups at depth 0 and no edges. */
  lemma FlattenOrgChart()
    ensures |FlatNodes(OrgChart, 0)| == 13
    ensures forall n :: n in FlatNodes(OrgChart, 0) ==> n.depth == 0 && n.count == 0
    ensures FlatEdges(OrgChart, None) == []
  {
    OrgChartShape();
    FlatChildless(OrgChart, 0, None);
  }

  lemma {:induction false} FlatChildless(groups: seq<OrgGroup>, depth: nat, parent: Option<string>)
    requires forall i :: 0 <= i < |groups| ==> groups[i].children == [] && groups[i].members == Some([])
    ensures |FlatNodes(groups, depth)| == |groups|
    ensures forall n :: n in FlatNodes(groups, depth) ==> n.depth == depth && n.count == 0
    ensures !Truthy(parent) ==> FlatEdges(groups, parent) == []
    decreases groups
  {
    if groups != [] {
      FlatChildless(groups[..|groups| - 1], depth, parent);
    }
  }

  // ---------------------------------------------------------------------------
  // computeLayout: bucketing by depth and ring radius (cos/sin are left out)
  // ---------------------------------------------------------------------------

  datatype LayoutItem = LayoutItem(id: string, depth: int)

  /** Where a node sits on the rings: its ring (depth), its slot on that ring,
      the ring's population, radius, and the slot's angle. The source turns this
      into x/y with cos and sin around the centre. */
  datatype RingSlot = RingSlot(depth: nat, index: nat, count: nat, radius: real, angle: real)

  function MinReal(a: real, b: real): real { if a <= b then a else b }
  function MaxReal(a: real, b: real): real { if a >= b then a else b }

  function BaseRadius(width: real, height: real): real {
    MinReal(width, height) / 5.0
  }

  function RingGap(width: real, height: real): real {
    MaxReal((NodeHeight + MinMargin) as real, MinReal(width, height) / 7.0)
  }

  /** The radius whose circumference fits `count` nodes side by side. */
  function SpacingRadius(count: nat, pi: real): real
    requires pi > 0.0
  {
    (count * (NodeWidth + MinMargin)) as real / (2.0 * pi)
  }

  function RingRadius(depth: nat, count: nat, width: real, height: real, pi: real): real
    requires pi > 0.0
  {
    MaxReal(BaseRadius(width, height) + depth as real * RingGap(width, height), SpacingRadius(count, pi))
  }

  /** Equal steps around the ring, starting at the top (-pi/2). */
  function SlotAngle(index: nat, count: nat, pi: real): real
    requires count > 0
  {
    -pi / 2.0 + index as real * (2.0 * pi / count as real)
  }

  /** `byDepth.get(d)`: the ids of the items at depth `d`, in input order. */
  function Bucket(items: seq<LayoutItem>, d: int): seq<string> {
    if items == [] then []
    else
      var last := items[|items| - 1];
      Bucket(items[..|items| - 1], d) + (if last.depth == d then [last.id] else [])
  }

  /** The ids that receive a position: those of items with a non-negative depth. */
  ghost function PlacedIds(items: seq<LayoutItem>): set<string> {
    set k | 0 <= k < |items| && items[k].depth >= 0 :: items[k].id
  }

  ghost function IdsBelow(items: seq<LayoutItem>, d: int): set<string> {
    set k | 0 <= k < |items| && 0 <= items[k].depth < d :: items[k].id
  }

  /** The slot given to `id` is consistent with the buckets: `id` is the
      slot's entry in the bucket of its depth, and radius and angle are the
      ring's. */
  ghost predicate SlotFits(items: seq<LayoutItem>, id: string, s: RingSlot, width: real, height: real, pi: real)
    requires pi > 0.0
  {
    && s.index < s.count == |Bucket(items, s.depth)|
    && Bucket(items, s.depth)[s.index] == id
    && s.radius == RingRadius(s.depth, s.count, width, height, pi)
    && s.angle == SlotAngle(s.index, s.count, pi)
  }

  /** Each bucket lists exactly the depth-`d` items, in input order: `idx`
      gives, for each entry, the input position it comes from. */
  lemma {:induction false} BucketInInputOrder(items: seq<LayoutItem>, d: int) returns (idx: seq<nat>)
    ensures |idx| == |Bucket(items, d)|
    ensures forall j :: 0 <= j < |idx| ==>
      idx[j] < |items| && items[idx[j]].depth == d && items[idx[j]].id == Bucket(items, d)[j]
    ensures forall j, l :: 0 <= j < l < |idx| ==> idx[j] < idx[l]
    ensures forall k :: 0 <= k < |items| && items[k].depth == d ==> k in idx
  {
    if items == [] {
      idx := [];
    } else {
      var n := |items| - 1;
      var init := items[..n];
      var prev := BucketInInputOrder(init, d);
      assert forall j :: 0 <= j < |prev| ==> items[prev[j]] == init[prev[j]];
      if items[n].depth == d {
        idx := prev + [n];
      } else {
        idx := prev;
      }
      forall k | 0 <= k < |items| && items[k].depth == d ensures k in idx {
        if k < n {
          assert init[k] == items[k];
          assert k in prev;
        }
      }
    }
  }

  /** Every item with depth `d` has its id in the bucket of `d`. */
  lemma BucketHasItem(items: seq<LayoutItem>, k: nat)
    requires k < |items|
    ensures items[k].id in Bucket(items, items[k].depth)
  {
    var idx := BucketInInputOrder(items, items[k].depth);
    var j :| 0 <= j < |idx| && idx[j] == k;
  }

  /** The set of a bucket's ids is the set of ids at that depth. */
  lemma BucketIds(items: seq<LayoutItem>, d: int)
    ensures (set j | 0 <= j < |Bucket(items, d)| :: Bucket(items, d)[j])
         == (set k | 0 <= k < |items| && items[k].depth == d :: items[k].id)
  {
    var idx := BucketInInputOrder(items, d);
    var b := Bucket(items, d);
    forall k | 0 <= k < |items| && items[k].depth == d
      ensures items[k].id in (set j | 0 <= j < |b| :: b[j])
    {
      var j :| 0 <= j < |idx| && idx[j] == k;
    }
  }

  /** A bucket of a prefix of the input is a prefix of the full bucket. */
  lemma {:induction false} BucketPrefix(items: seq<LayoutItem>, m: nat, d: int)
    requires m <= |items|
    ensures Bucket(items[..m], d) <= Bucket(items, d)
    decreases |items|
  {
    if m < |items| {
      var n := |items| - 1;
      assert items[..n][..m] == items[..m];
      BucketPrefix(items[..n], m, d);
    } else {
      assert items[..m] == items;
    }
  }

  /** With distinct ids, the one entry of an item's id in its bucket sits at
      the item's rank among the earlier items of the same depth. */
  lemma {:induction false} BucketRank(items: seq<LayoutItem>, k: nat, j: nat)
    requires k < |items|
    requires forall l :: 0 <= l < |items| && l != k ==> items[l].id != items[k].id
    requires j < |Bucket(items, items[k].depth)| && Bucket(items, items[k].depth)[j] == items[k].id
    ensures j == |Bucket(items[..k], items[k].depth)|
    decreases |items|
  {
    var n := |items| - 1;
    var init := items[..n];
    var d := items[k].depth;
    if k == n {
      if j < |Bucket(init, d)| {
        var idx := BucketInInputOrder(init, d);
        assert false;
      }
    } else {
      assert init[..k] == items[..k];
      BucketRank(init, k, j);
    }
  }

  /** With distinct ids, the slot of the item at position `k` is its rank among
      the earlier items of the same depth: ring order is input order. */
  lemma SlotOfDistinctId(items: seq<LayoutItem>, k: nat, s: RingSlot, width: real, height: real, pi: real)
    requires pi > 0.0
    requires k < |items|
    requires forall j :: 0 <= j < |items| && j != k ==> items[j].id != items[k].id
    requires SlotFits(items, items[k].id, s, width, height, pi)
    ensures s.depth == items[k].depth
    ensures s.index == |Bucket(items[..k], items[k].depth)|
  {
    var idx := BucketInInputOrder(items, s.depth);
    assert items[idx[s.index]].id == items[k].id;
    BucketRank(items, k, s.index);
  }

  /** `Math.max(...byDepth.keys())`, the keys in insertion order. */
  method MaxKey(keys: seq<int>) returns (m: int)
    requires keys != []
    ensures m in keys
    ensures forall i :: 0 <= i < |keys| ==> keys[i] <= m
  {
    m := keys[0];
    var i := 1;
    while i < |keys|
      invariant 1 <= i <= |keys| && m in keys
      invariant forall j :: 0 <= j < i ==> keys[j] <= m
    {
      if keys[i] > m {
        m := keys[i];
      }
      i := i + 1;
    }
  }

  /** The first half of `computeLayout`: the `byDepth` map, built item by
      item, together with its keys in insertion order. */
  method GroupByDepth(items: seq<LayoutItem>) returns (byDepth: map<int, seq<string>>, keys: seq<int>)
    ensures forall d :: d in byDepth <==> d in keys
    ensures forall d :: d in byDepth ==> byDepth[d] == Bucket(items, d) && byDepth[d] != []
    ensures forall d :: d !in byDepth ==> Bucket(items, d) == []
  {
    byDepth, keys := map[], [];
    var k := 0;
    while k < |items|
      invariant 0 <= k <= |items|
      invariant forall d :: d in byDepth <==> d in keys
      invariant forall d :: d in byDepth ==> byDepth[d] == Bucket(items[..k], d) && byDepth[d] != []
      invariant forall d :: d !in byDepth ==> Bucket(items[..k], d) == []
    {
      var it := items[k];
      assert items[..k + 1][..k] == items[..k];
      if it.depth !in byDepth {
        keys := keys + [it.depth];
      }
      var arr := if it.depth in byDepth then byDepth[it.depth] else [];
      byDepth := byDepth[it.depth := arr + [it.id]];
      k := k + 1;
    }
    assert items[..k] == items;
  }

  /** The inner loop of `computeLayout`: gives each id of a non-empty ring
      its slot, leaving the other positions as they were. */
  method PlaceRing(pos0: map<string, RingSlot>, ids: seq<string>, d: nat, width: real, height: real, pi: real)
    returns (pos: map<string, RingSlot>)
    requires pi > 0.0 && ids != []
    ensures pos.Keys == pos0.Keys + (set j | 0 <= j < |ids| :: ids[j])
    ensures forall id :: id in pos && id !in ids ==> pos[id] == pos0[id]
    ensures forall id :: id in ids ==>
              exists j :: LastAt(ids, id, j, |ids|) && pos[id] == RingSlot(d, j, |ids|,
                                RingRadius(d, |ids|, width, height, pi), SlotAngle(j, |ids|, pi))
  {
    pos := pos0;
    var count := |ids|;
    var radius := MaxReal(BaseRadius(width, height) + d as real * RingGap(width, height), SpacingRadius(count, pi));
    var i := 0;
    while i < count
      invariant 0 <= i <= count
      invariant pos.Keys == pos0.Keys + (set j | 0 <= j < i :: ids[j])
      invariant forall id :: id in pos && id !in ids[..i] ==> pos[id] == pos0[id]
      invariant RingPlaced(pos, ids, i, d, radius, pi)
    {
      PlaceStep(pos, ids, i, d, radius, pi);
      pos := pos[ids[i] := RingSlot(d, i, count, radius, SlotAngle(i, count, pi))];
      assert (set j | 0 <= j < i + 1 :: ids[j]) == (set j | 0 <= j < i :: ids[j]) + {ids[i]};
      assert ids[..i + 1] == ids[..i] + [ids[i]];
      i := i + 1;
    }
    assert ids[..i] == ids;
  }

  /** `j` is the last of the first `n` positions holding `id`. */
  predicate LastAt(ids: seq<string>, id: string, j: int, n: int)
    requires n <= |ids|
  {
    0 <= j < n && ids[j] == id && forall k :: j < k < n ==> ids[k] != id
  }

  /** The ring loop's invariant: every id among the first `i` holds the slot
      of its last position so far, since later writes overwrite earlier ones. */
  ghost predicate RingPlaced(pos: map<string, RingSlot>, ids: seq<string>, i: nat, d: nat, radius: real, pi: real)
    requires i <= |ids|
  {
    forall id :: id in ids[..i] ==>
      id in pos && exists j :: LastAt(ids, id, j, i) && pos[id] == RingSlot(d, j, |ids|, radius, SlotAngle(j, |ids|, pi))
  }

  /** Placing the next id keeps the ring loop's invariant. */
  lemma PlaceStep(pos: map<string, RingSlot>, ids: seq<string>, i: nat, d: nat, radius: real, pi: real)
    requires i < |ids|
    requires RingPlaced(pos, ids, i, d, radius, pi)
    ensures RingPlaced(pos[ids[i] := RingSlot(d, i, |ids|, radius, SlotAngle(i, |ids|, pi))], ids, i + 1, d, radius, pi)
  {
    var next := pos[ids[i] := RingSlot(d, i, |ids|, radius, SlotAngle(i, |ids|, pi))];
    assert ids[..i + 1] == ids[..i] + [ids[i]];
    forall id | id in ids[..i + 1]
      ensures id in next && exists j :: LastAt(ids, id, j, i + 1) && next[id] == RingSlot(d, j, |ids|, radius, SlotAngle(j, |ids|, pi))
    {
      if id == ids[i] {
        assert LastAt(ids, id, i, i + 1);
        assert next[id] == RingSlot(d, i, |ids|, radius, SlotAngle(i, |ids|, pi));
      } else {
        assert id in ids[..i];
        var j :| LastAt(ids, id, j, i) && pos[id] == RingSlot(d, j, |ids|, radius, SlotAngle(j, |ids|, pi));
        assert LastAt(ids, id, j, i + 1);
        assert next[id] == pos[id];
      }
    }
  }

  /** The slot `s` of `id` is the last write of the ring loops run below
      depth `d`: no item with that id sits deeper, and the slot is the id's
      last position in its ring. */
  ghost predicate LastWriteBelow(items: seq<LayoutItem>, id: string, s: RingSlot, d: int) {
    && (forall k :: 0 <= k < |items| && items[k].id == id && items[k].depth < d ==> items[k].depth <= s.depth)
    && LastAt(Bucket(items, s.depth), id, s.index, |Bucket(items, s.depth)|)
  }

  /** The ring at depth `d` overwrites every id of its bucket and leaves the
      others, which have no item at depth `d`, as they were. */
  lemma RingKeepsLastWrite(items: seq<LayoutItem>, pos0: map<string, RingSlot>, pos: map<string, RingSlot>, d: nat)
    requires forall id :: id in pos0 ==> LastWriteBelow(items, id, pos0[id], d)
    requires pos.Keys == pos0.Keys + (set j | 0 <= j < |Bucket(items, d)| :: Bucket(items, d)[j])
    requires forall id :: id in pos && id !in Bucket(items, d) ==> pos[id] == pos0[id]
    requires forall id :: id in Bucket(items, d) ==>
               exists j :: LastAt(Bucket(items, d), id, j, |Bucket(items, d)|) && pos[id].depth == d && pos[id].index == j
    ensures forall id :: id in pos ==> LastWriteBelow(items, id, pos[id], d + 1)
  {
    forall id | id in pos ensures LastWriteBelow(items, id, pos[id], d + 1) {
      if id in Bucket(items, d) {
        var j :| LastAt(Bucket(items, d), id, j, |Bucket(items, d)|) && pos[id].depth == d && pos[id].index == j;
      } else {
        forall k | 0 <= k < |items| && items[k].id == id
          ensures items[k].depth != d
        {
          if items[k].depth == d {
            BucketHasItem(items, k);
          }
        }
      }
    }
  }

  /** An empty ring writes nothing, and no item sits at its depth. */
  lemma EmptyRingKeepsLastWrite(items: seq<LayoutItem>, pos: map<string, RingSlot>, d: nat)
    requires Bucket(items, d) == []
    requires forall id :: id in pos ==> LastWriteBelow(items, id, pos[id], d)
    ensures forall id :: id in pos ==> LastWriteBelow(items, id, pos[id], d + 1)
  {
    forall k | 0 <= k < |items| ensures items[k].depth != d {
      BucketHasItem(items, k);
    }
  }

  /** The slot `s` of `id` is the last write of all the ring loops: no item
      with that id sits deeper, and the slot is the id's last position in
      its ring. */
  ghost predicate LastWrite(items: seq<LayoutItem>, id: string, s: RingSlot) {
    && (forall k :: 0 <= k < |items| && items[k].id == id ==> items[k].depth <= s.depth)
    && LastAt(Bucket(items, s.depth), id, s.index, |Bucket(items, s.depth)|)
  }

  /** The outer loop's invariant after the rings below depth `d`: exactly the
      ids placed so far have a position, each slot fits its bucket, and each
      is the id's last write so far. */
  ghost predicate LaidOutBelow(items: seq<LayoutItem>, pos: map<string, RingSlot>, d: int, width: real, height: real, pi: real)
    requires pi > 0.0
  {
    && pos.Keys == IdsBelow(items, d)
    && (forall id :: id in pos ==> SlotFits(items, id, pos[id], width, height, pi))
    && (forall id :: id in pos ==> LastWriteBelow(items, id, pos[id], d))
  }

  /** Placing the non-empty ring at depth `d` extends the layout to depth `d + 1`. */
  lemma RingStep(items: seq<LayoutItem>, pos0: map<string, RingSlot>, pos: map<string, RingSlot>, d: nat,
                 width: real, height: real, pi: real)
    requires pi > 0.0
    requires LaidOutBelow(items, pos0, d, width, height, pi)
    requires pos.Keys == pos0.Keys + (set j | 0 <= j < |Bucket(items, d)| :: Bucket(items, d)[j])
    requires forall id :: id in pos && id !in Bucket(items, d) ==> pos[id] == pos0[id]
    requires forall id :: id in Bucket(items, d) ==>
               exists j :: LastAt(Bucket(items, d), id, j, |Bucket(items, d)|)
                        && pos[id] == RingSlot(d, j, |Bucket(items, d)|, RingRadius(d, |Bucket(items, d)|, width, height, pi),
                                               SlotAngle(j, |Bucket(items, d)|, pi))
    ensures LaidOutBelow(items, pos, d + 1, width, height, pi)
  {
    var ids := Bucket(items, d);
    BucketIds(items, d);
    assert IdsBelow(items, d + 1) == IdsBelow(items, d) + (set j | 0 <= j < |ids| :: ids[j]);
    forall id | id in ids
      ensures SlotFits(items, id, pos[id], width, height, pi)
      ensures exists j :: LastAt(ids, id, j, |ids|) && pos[id].depth == d && pos[id].index == j
    {
      var j :| LastAt(ids, id, j, |ids|)
            && pos[id] == RingSlot(d, j, |ids|, RingRadius(d, |ids|, width, height, pi), SlotAngle(j, |ids|, pi));
    }
    RingKeepsLastWrite(items, pos0, pos, d);
  }

  /** An empty ring at depth `d` extends the layout to depth `d + 1` unchanged. */
  lemma EmptyRingStep(items: seq<LayoutItem>, pos: map<string, RingSlot>, d: nat, width: real, height: real, pi: real)
    requires pi > 0.0
    requires Bucket(items, d) == []
    requires LaidOutBelow(items, pos, d, width, height, pi)
    ensures LaidOutBelow(items, pos, d + 1, width, height, pi)
  {
    forall k | 0 <= k < |items| ensures items[k].depth != d {
      BucketHasItem(items, k);
    }
    assert IdsBelow(items, d + 1) == IdsBelow(items, d);
    EmptyRingKeepsLastWrite(items, pos, d);
  }

  /** Once every depth lies below `d`, the layout so far is the whole layout. */
  lemma LayoutDone(items: seq<LayoutItem>, pos: map<string, RingSlot>, d: int, width: real, height: real, pi: real)
    requires pi > 0.0
    requires LaidOutBelow(items, pos, d, width, height, pi)
    requires forall j :: 0 <= j < |items| ==> items[j].depth < d
    ensures pos.Keys == PlacedIds(items)
    ensures forall id :: id in pos ==> SlotFits(items, id, pos[id], width, height, pi)
    ensures forall id :: id in pos ==> LastWrite(items, id, pos[id])
  {
    assert IdsBelow(items, d) == PlacedIds(items);
  }

  /** `computeLayout`: buckets the ids by depth, then walks the depths
      0..maxRing and gives every id of a non-empty ring its slot.
      Every input id with a non-negative depth receives a position and no other
      id does; each slot is the id's place in its ring's bucket. */
  method ComputeLayout(items: seq<LayoutItem>, width: real, height: real, pi: real)
    returns (pos: map<string, RingSlot>)
    requires pi > 0.0
    ensures pos.Keys == PlacedIds(items)
    ensures forall id :: id in pos ==> SlotFits(items, id, pos[id], width, height, pi)
    ensures forall id :: id in pos ==> LastWrite(items, id, pos[id])
    ensures items == [] ==> pos == map[]
  {
    var byDepth, keys := GroupByDepth(items);
    var maxRing := 0;
    if keys != [] {
      maxRing := MaxKey(keys);
    }
    forall j | 0 <= j < |items| ensures items[j].depth <= maxRing {
      BucketHasItem(items, j);
      assert items[j].depth in byDepth;
    }

    pos := map[];
    var d := 0;
    while d <= maxRing
      invariant 0 <= d && (maxRing >= 0 ==> d <= maxRing + 1)
      invariant LaidOutBelow(items, pos, d, width, height, pi)
    {
      var ids := if d in byDepth then byDepth[d] else [];
      assert ids == Bucket(items, d);
      if ids != [] {
        ghost var pos0 := pos;
        pos := PlaceRing(pos, ids, d, width, height, pi);
        RingStep(items, pos0, pos, d, width, height, pi);
      } else {
        EmptyRingStep(items, pos, d, width, height, pi);
      }
      d := d + 1;
    }
    LayoutDone(items, pos, d, width, height, pi);
  }

  /** The ring radius honours both lower bounds: the base radius grown by one
      ring gap per level, and the radius whose circumference fits the ring's
      nodes; the gap itself is at least a node height plus the margin (112). */
  lemma RingRadiusBounds(depth: nat, count: nat, width: real, height: real, pi: real)
    requires pi > 0.0
    ensures RingRadius(depth, count, width, height, pi) >= BaseRadius(width, height) + depth as real * RingGap(width, height)
    ensures RingRadius(depth, count, width, height, pi) >= SpacingRadius(count, pi)
    ensures RingGap(width, height) >= 112.0
  {
  }

  /** No two nodes of a ring overlap: the arc each of the `count` nodes gets
      is at least a node width plus the margin. */
  lemma NoOverlapOnRing(depth: nat, count: nat, width: real, height: real, pi: real)
    requires pi > 0.0 && count > 0
    ensures 2.0 * pi * RingRadius(depth, count, width, height, pi) / count as real
         >= (NodeWidth + MinMargin) as real
  {
    var r := RingRadius(depth, count, width, height, pi);
    var c := count as real;
    var need := (count * (NodeWidth + MinMargin)) as real;
    assert r >= need / (2.0 * pi);
    assert 2.0 * pi * r >= 2.0 * pi * (need / (2.0 * pi));
    assert 2.0 * pi * (need / (2.0 * pi)) == need;
    assert need == c * (NodeWidth + MinMargin) as real;
    assert 2.0 * pi * r / c >= need / c;
  }

  /** The caller lays out in at least 300 x 300 even before the container is
      measured, so every ring has a radius of at least 60: no degenerate layout. */
  lemma MeasuredRadiusPositive(depth: nat, count: nat, w: real, h: real, pi: real)
    requires pi > 0.0
    ensures RingRadius(depth, count, MaxReal(w, 300.0), MaxReal(h, 300.0), pi) >= 60.0
  {
    var width, height := MaxReal(w, 300.0), MaxReal(h, 300.0);
    assert BaseRadius(width, height) >= 60.0;
    assert depth as real * RingGap(width, height) >= 0.0;
  }

  /** The graph component's layout step: flatten the chart, then lay the nodes
      out in the measured size, clamped to at least 300 x 300. No node is
      dropped: every node id receives a position. */
  method LayoutGraph(groups: seq<OrgGroup>, w: real, h: real, pi: real)
    returns (nodes: seq<FlatNode>, edges: seq<FlatEdge>, pos: map<string, RingSlot>)
    requires pi > 0.0
    ensures nodes == FlatNodes(groups, 0) && edges == FlatEdges(groups, None)
    ensures forall i :: 0 <= i < |nodes| ==> nodes[i].id in pos
    ensures forall id :: id in pos ==> pos[id].radius >= 60.0
  {
    nodes, edges := FlattenGroups(groups, 0, None);
    var items := seq(|nodes|, i requires 0 <= i < |nodes| => LayoutItem(nodes[i].id, nodes[i].depth));
    pos := ComputeLayout(items, MaxReal(w, 300.0), MaxReal(h, 300.0), pi);
    forall i | 0 <= i < |nodes| ensures nodes[i].id in pos {
      assert items[i].id == nodes[i].id && items[i].depth >= 0;
    }
    forall id | id in pos ensures pos[id].radius >= 60.0 {
      MeasuredRadiusPositive(pos[id].depth, pos[id].count, w, h, pi);
    }
  }

  // ---------------------------------------------------------------------------
  // handleFocusSearch
  // ---------------------------------------------------------------------------

  /** The groups the search looks at: each top-level group followed by its
      direct children (`flatMap((g) => [g, ...(g.children ?? [])])`). */
  function Candidates(groups: seq<OrgGroup>): seq<OrgGroup> {
    if groups == [] then [] else [groups[0]] + groups[0].children + Candidates(groups[1..])
  }

  /** Only the first two levels are searched: a candidate is a top-level group
      or a direct child of one, and each of those is a candidate. */
  lemma {:induction false} CandidatesMembership(groups: seq<OrgGroup>, c: OrgGroup)
    ensures c in Candidates(groups) <==>
      exists i :: 0 <= i < |groups| && (c == groups[i] || c in groups[i].children)
  {
    if groups != [] {
      CandidatesMembership(groups[1..], c);
      if exists i :: 0 <= i < |groups| && (c == groups[i] || c in groups[i].children) {
        var i :| 0 <= i < |groups| && (c == groups[i] || c in groups[i].children);
        if i > 0 {
          assert groups[1..][i - 1] == groups[i];
        }
      }
      if c in Candidates(groups[1..]) {
        var i :| 0 <= i < |groups[1..]| && (c == groups[1..][i] || c in groups[1..][i].children);
        assert groups[i + 1] == groups[1..][i];
      }
    }
  }

  /** A group matches when the query is in its lower-cased name or in the
      lower-cased text of one of its members. */
  predicate GroupMatches(g: OrgGroup, q: string) {
    || Includes(Lower(g.name), q)
    || exists i :: 0 <= i < |MembersOf(g)| && MemberMatches(MembersOf(g)[i], q)
  }

  /** `Array.prototype.find` over the candidates: the first matching one. */
  function FindFirstMatch(cands: seq<OrgGroup>, q: string): (r: Option<nat>)
    ensures r.Some? ==> r.value < |cands| && GroupMatches(cands[r.value], q)
    ensures r.Some? ==> forall j :: 0 <= j < r.value ==> !GroupMatches(cands[j], q)
    ensures r.None? ==> forall j :: 0 <= j < |cands| ==> !GroupMatches(cands[j], q)
  {
    if cands == [] then None
    else if GroupMatches(cands[0], q) then Some(0)
    else
      match FindFirstMatch(cands[1..], q)
      case None => None
      case Some(k) => Some(k + 1)
  }

  /** `nodes.find((x) => x.id === id)`. */
  function FindNode(nodes: seq<FlatNode>, id: string): (r: Option<nat>)
    ensures r.Some? ==> r.value < |nodes| && nodes[r.value].id == id
    ensures r.None? ==> forall j :: 0 <= j < |nodes| ==> nodes[j].id != id
  {
    if nodes == [] then None
    else if nodes[0].id == id then Some(0)
    else
      match FindNode(nodes[1..], id)
      case None => None
      case Some(k) => Some(k + 1)
  }

  /** What pressing Focus does: fit the whole graph, nothing, or centre the
      view on a node (the node's position is the layout's). */
  datatype FocusAction = FitView | NoAction | CenterOn(id: string)

  /** `handleFocusSearch`: trim and lower-case the query; an empty query fits
      the view; otherwise the first matching candidate is centred on, provided
      its id is non-empty and it is among the graph's nodes. */
  function ResolveFocus(groups: seq<OrgGroup>, nodes: seq<FlatNode>, query: string): (a: FocusAction)
    ensures a.FitView? <==> Lower(Trim(query)) == []
    ensures a.CenterOn? <==>
      && Lower(Trim(query)) != []
      && (exists i :: FirstMatchAt(Candidates(groups), Lower(Trim(query)), i)
           && Candidates(groups)[i].id != ""
           && exists k :: 0 <= k < |nodes| && nodes[k].id == Candidates(groups)[i].id)
    ensures a.CenterOn? ==>
              exists i :: FirstMatchAt(Candidates(groups), Lower(Trim(query)), i) && a.id == Candidates(groups)[i].id
  {
    var q := Lower(Trim(query));
    if q == [] then FitView
    else
      var cands := Candidates(groups);
      match FindFirstMatch(cands, q)
      case None => NoAction
      case Some(i) =>
        var id := cands[i].id;
        if id == "" then NoAction
        else
          match FindNode(nodes, id)
          case None => NoAction
          case Some(_) => CenterOn(id)
  }

  /** Candidate `i` is the first one matching `q`. */
  ghost predicate FirstMatchAt(cands: seq<OrgGroup>, q: string, i: int) {
    && 0 <= i < |cands|
    && GroupMatches(cands[i], q)
    && forall j :: 0 <= j < i ==> !GroupMatches(cands[j], q)
  }

  /** The first match is unique. */
  lemma FirstMatchUnique(cands: seq<OrgGroup>, q: string, i: int, j: int)
    requires FirstMatchAt(cands, q, i) && FirstMatchAt(cands, q, j)
    ensures i == j
  {
  }

  /** Each subtree's nodes are among the flattened nodes. */
  lemma {:induction false} SubtreeNodes(groups: seq<OrgGroup>, i: nat, depth: nat)
    requires i < |groups|
    ensures forall n :: n in FlatNodes(groups[i].children, depth + 1) ==> n in FlatNodes(groups, depth)
    decreases groups
  {
    var init := groups[..|groups| - 1];
    if i < |groups| - 1 {
      assert init[i] == groups[i];
      SubtreeNodes(init, i, depth);
    }
  }

  /** Every candidate is a node of the flattened chart. */
  lemma CandidateIsNode(groups: seq<OrgGroup>, c: OrgGroup)
    requires c in Candidates(groups)
    ensures exists k :: 0 <= k < |FlatNodes(groups, 0)| && FlatNodes(groups, 0)[k].id == c.id
  {
    var nodes := FlatNodes(groups, 0);
    CandidatesMembership(groups, c);
    var t :| 0 <= t < |groups| && (c == groups[t] || c in groups[t].children);
    GroupsAreNodes(groups, 0);
    if c == groups[t] {
      assert NodeOf(c, 0) in nodes;
    } else {
      var j :| 0 <= j < |groups[t].children| && groups[t].children[j] == c;
      GroupsAreNodes(groups[t].children, 1);
      SubtreeNodes(groups, t, 0);
      assert NodeOf(c, 1) in nodes;
    }
  }

  /** With the graph's own nodes the lookup never fails: a non-empty query
      centres on the first match whenever there is one with a non-empty id. */
  lemma FocusTargetIsNode(groups: seq<OrgGroup>, query: string)
    ensures ResolveFocus(groups, FlatNodes(groups, 0), query).CenterOn? <==>
      && Lower(Trim(query)) != []
      && exists i :: FirstMatchAt(Candidates(groups), Lower(Trim(query)), i) && Candidates(groups)[i].id != ""
  {
    var cands := Candidates(groups);
    var q := Lower(Trim(query));
    if q != [] && exists i :: FirstMatchAt(cands, q, i) && cands[i].id != "" {
      var i :| FirstMatchAt(cands, q, i) && cands[i].id != "";
      CandidateIsNode(groups, cands[i]);
    }
  }

  /** Two childless groups are searched in their order. */
  lemma LeafCandidates(a: OrgGroup, b: OrgGroup)
    requires a.children == [] && b.children == []
    ensures Candidates([a, b]) == [a, b]
  {
    assert [a, b][1..] == [b];
    assert Candidates([b]) == [b] + [] + Candidates([]);
  }

  /** Two childless groups flatten to their two nodes, in order. */
  lemma LeafNodes(a: OrgGroup, b: OrgGroup)
    requires a.children == [] && b.children == []
    ensures FlatNodes([a, b], 0) == [NodeOf(a, 0), NodeOf(b, 0)]
  {
    assert [a, b][..1] == [a];
    assert [a][..0] == [];
    assert FlatNodes([a], 0) == FlatNodes([], 0) + [NodeOf(a, 0)] + FlatNodes([], 1);
  }

  /** A non-empty query whose first match has a non-empty id that is among
      the nodes centres on that match. */
  lemma FocusOnFirstMatch(groups: seq<OrgGroup>, nodes: seq<FlatNode>, query: string, i: nat, k: nat)
    requires Lower(Trim(query)) != []
    requires FirstMatchAt(Candidates(groups), Lower(Trim(query)), i)
    requires Candidates(groups)[i].id != ""
    requires k < |nodes| && nodes[k].id == Candidates(groups)[i].id
    ensures ResolveFocus(groups, nodes, query) == CenterOn(Candidates(groups)[i].id)
  {
    var r := ResolveFocus(groups, nodes, query);
    var j :| FirstMatchAt(Candidates(groups), Lower(Trim(query)), j) && r.id == Candidates(groups)[j].id;
    FirstMatchUnique(Candidates(groups), Lower(Trim(query)), i, j);
  }

  /** The example's matching: the first group matches through its member
      "Ops", the second through its name. */
  lemma ExampleMatches(a: OrgGroup, b: OrgGroup)
    requires a.members == Some([OrgMember("Ops", None)]) && b.name == "Ops"
    ensures FirstMatchAt([a, b], "ops", 0) && Includes(Lower(b.name), "ops")
  {
    assert Lower("Ops") == "ops";
    assert Lower(MemberText(MembersOf(a)[0])) == "ops ";
    assert Includes("ops ", "ops");
    assert MemberMatches(MembersOf(a)[0], "ops");
  }

  /** Matching is first-come over the candidates, not name-first: a group that
      matches only through a member, listed earlier, wins over a later group
      whose name matches. */
  lemma SearchIsNotNameFirst()
    ensures
      var a := OrgGroup("a", "A", "Users", None, Some([OrgMember("Ops", None)]), []);
      var b := OrgGroup("b", "Ops", "Users", None, Some([]), []);
      && !Includes(Lower(a.name), "ops") && Includes(Lower(b.name), "ops")
      && ResolveFocus([a, b], FlatNodes([a, b], 0), "ops") == CenterOn("a")
  {
    var a := OrgGroup("a", "A", "Users", None, Some([OrgMember("Ops", None)]), []);
    var b := OrgGroup("b", "Ops", "Users", None, Some([]), []);
    LeafCandidates(a, b);
    LeafNodes(a, b);
    ExampleMatches(a, b);
    TrimmedIsFixed("ops");
    assert Lower("ops") == "ops";
    FocusOnFirstMatch([a, b], FlatNodes([a, b], 0), "ops", 0, 0);
  }

  /** The count line under a group's name: singular exactly for one member. */
  function MemberCountLabel(count: nat): (s: string)
    ensures s == NatToString(count) + " member" <==> count == 1
    ensures s == NatToString(count) + " members" <==> count != 1
  {
    NatToString(count) + (if count == 1 then " member" else " members")
  }
}
