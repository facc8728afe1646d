/** btree_layout: a tree visitor that records, for every node it is shown, a
    node_info (leaf flag, depth, level, block address and half-open key
    range). The visit order is depth first, lowest key to highest, so the end
    of a node's range is only known once the next node at the same depth
    arrives; the recorder then patches it in through the per-depth table of
    last nodes. The table's shared pointers are modelled as indices into the
    recorded list, so a patch is visible in the list. */
module LayoutRecorder {
  import opened Wrappers
  import opened Types

  /** range<uint64_t>: [begin, end), either end may be unbounded (None). */
  datatype Range = Range(begin: Option<u64>, end: Option<u64>)

  predicate InRange(r: Range, k: u64)
  {
    (r.begin.None? || r.begin.value <= k) && (r.end.None? || k < r.end.value)
  }

  /** btree_detail::node_location as far as the recorder reads it. */
  datatype NodeLocation = NodeLocation(depth: nat, level: nat, key: Option<u64>)

  /** What the recorder reads from an internal or leaf node: its own block
      address and its keys, in order. */
  datatype NodeView = NodeView(location: BlockAddress, keys: seq<u64>)

  /** node_info */
  datatype NodeInfo = NodeInfo(leaf: bool, depth: nat, level: nat, b: BlockAddress, keys: Range)

  /** One visit_internal / visit_internal_leaf / visit_leaf call. */
  datatype Visit = Visit(leaf: bool, loc: NodeLocation, node: NodeView)

  /** The recorder's state: nodes_ and last_node_at_depth_ (indices into nodes_). */
  datatype Layout = Layout(nodes: seq<NodeInfo>, lastAtDepth: seq<nat>)

  /** The node_info built for one visit, before any later patch of its end. */
  function Describe(v: Visit): (ni: NodeInfo)
    ensures ni.leaf == v.leaf && ni.depth == v.loc.depth && ni.level == v.loc.level
    ensures ni.b == v.node.location
    ensures |v.node.keys| > 0 ==> ni.keys.begin == Some(v.node.keys[0])
    ensures |v.node.keys| == 0 && v.loc.key.Some? ==> ni.keys.begin == v.loc.key
    ensures |v.node.keys| == 0 && v.loc.key.None? ==> ni.keys.begin.None?
    ensures ni.keys.end.None?
  {
    var keys :=
      if |v.node.keys| > 0 then Range(Some(v.node.keys[0]), None)
      else if v.loc.key.Some? then Range(Some(v.loc.key.value), None)
      else Range(None, None);
    NodeInfo(v.leaf, v.loc.depth, v.loc.level, v.node.location, keys)
  }

  /** Every table entry points at a recorded node (the shared pointers are never dangling). */
  predicate TableInBounds(s: Layout)
  {
    forall d :: 0 <= d < |s.lastAtDepth| ==> s.lastAtDepth[d] < |s.nodes|
  }

  /** ni with its end replaced by e. */
  function WithEnd(ni: NodeInfo, e: Option<u64>): NodeInfo
  {
    ni.(keys := ni.keys.(end := e))
  }

  /** record_node, on values: one record is appended; if the depth is already
      in the table, the previous last node there gets the new node's begin as
      its end and the table entry moves to the new node, otherwise the table
      grows by one entry for the new node. */
  function Record(s: Layout, ni: NodeInfo): (r: Layout)
    requires TableInBounds(s)
    ensures TableInBounds(r)
    ensures |r.nodes| == |s.nodes| + 1 && r.nodes[|s.nodes|] == ni
    ensures ni.depth < |s.lastAtDepth| ==>
      var p := s.lastAtDepth[ni.depth];
      && r.lastAtDepth == s.lastAtDepth[ni.depth := |s.nodes|]
      && r.nodes[p] == WithEnd(s.nodes[p], ni.keys.begin)
      && (forall i :: 0 <= i < |s.nodes| && i != p ==> r.nodes[i] == s.nodes[i])
    ensures ni.depth >= |s.lastAtDepth| ==>
      && r.lastAtDepth == s.lastAtDepth + [|s.nodes|]
      && r.nodes[..|s.nodes|] == s.nodes
  {
    if ni.depth < |s.lastAtDepth| then
      var p := s.lastAtDepth[ni.depth];
      Layout(s.nodes[p := WithEnd(s.nodes[p], ni.keys.begin)] + [ni],
             s.lastAtDepth[ni.depth := |s.nodes|])
    else
      Layout(s.nodes + [ni], s.lastAtDepth + [|s.nodes|])
  }

  /** j is the first node after i recorded at i's depth. */
  ghost predicate NextAtDepth(nodes: seq<NodeInfo>, i: int, j: int)
  {
    0 <= i < j < |nodes| && nodes[j].depth == nodes[i].depth &&
    forall k :: i < k < j ==> nodes[k].depth != nodes[i].depth
  }

  /** The table has one entry per depth seen, and it is the latest node
      recorded at that depth, whose end is still unbounded. */
  ghost predicate TableIsLatest(s: Layout)
  {
    && (forall d :: 0 <= d < |s.lastAtDepth| ==>
          s.lastAtDepth[d] < |s.nodes| && s.nodes[s.lastAtDepth[d]].depth == d &&
          s.nodes[s.lastAtDepth[d]].keys.end.None?)
    && (forall i :: 0 <= i < |s.nodes| ==>
          s.nodes[i].depth < |s.lastAtDepth| && i <= s.lastAtDepth[s.nodes[i].depth])
  }

  /** Every node that is not the latest at its depth ends where the next node
      recorded at its depth begins. */
  ghost predicate EndsAreNextBegins(s: Layout)
    requires TableIsLatest(s)
  {
    forall i :: 0 <= i < |s.nodes| && i < s.lastAtDepth[s.nodes[i].depth] ==>
      exists j :: NextAtDepth(s.nodes, i, j) && s.nodes[i].keys.end == s.nodes[j].keys.begin
  }

  /** The recorder's invariant: per depth, the recorded ranges form a chain of
      adjacent ranges whose last one is open. */
  ghost predicate Chained(s: Layout)
  {
    TableIsLatest(s) && EndsAreNextBegins(s)
  }

  lemma RecordKeepsTable(s: Layout, ni: NodeInfo)
    requires TableIsLatest(s)
    requires ni.depth <= |s.lastAtDepth| && ni.keys.end.None?
    ensures TableInBounds(s) && TableIsLatest(Record(s, ni))
  {
  }

  /** Recording a node whose depth is at most the table size (depth-first
      order) keeps the ranges chained. */
  lemma RecordKeepsChained(s: Layout, ni: NodeInfo)
    requires Chained(s)
    requires ni.depth <= |s.lastAtDepth| && ni.keys.end.None?
    ensures TableInBounds(s) && Chained(Record(s, ni))
  {
    RecordKeepsTable(s, ni);
    var r := Record(s, ni);
    var n := |s.nodes|;
    var d := ni.depth;
    assert forall i :: 0 <= i < n ==>
      r.nodes[i].depth == s.nodes[i].depth && r.nodes[i].keys.begin == s.nodes[i].keys.begin;
    forall i | 0 <= i < |r.nodes| && i < r.lastAtDepth[r.nodes[i].depth]
      ensures exists j :: NextAtDepth(r.nodes, i, j) && r.nodes[i].keys.end == r.nodes[j].keys.begin
    {
      if d < |s.lastAtDepth| && i == s.lastAtDepth[d] {
        assert NextAtDepth(r.nodes, i, n);
      } else {
        assert i < s.lastAtDepth[s.nodes[i].depth];
        var j :| NextAtDepth(s.nodes, i, j) && s.nodes[i].keys.end == s.nodes[j].keys.begin;
        assert r.nodes[i] == s.nodes[i];
        assert NextAtDepth(r.nodes, i, j);
      }
    }
  }

  /** The layout recorded by a whole walk, one visit after the other. */
  function Walk(vs: seq<Visit>): (s: Layout)
    ensures TableInBounds(s) && |s.nodes| == |vs|
  {
    if vs == [] then Layout([], [])
    else Record(Walk(vs[..|vs| - 1]), Describe(vs[|vs| - 1]))
  }

  /** Depth-first order as the recorder relies on it: no visit goes deeper
      than one past the deepest depth seen so far (the table size). */
  predicate DepthFirst(vs: seq<Visit>)
  {
    vs == [] ||
    (DepthFirst(vs[..|vs| - 1]) && vs[|vs| - 1].loc.depth <= |Walk(vs[..|vs| - 1]).lastAtDepth|)
  }

  /** The deepest depth among the visits, -1 when there are none. */
  function Deepest(vs: seq<Visit>): int
  {
    if vs == [] then -1
    else
      var d := Deepest(vs[..|vs| - 1]);
      if vs[|vs| - 1].loc.depth > d then vs[|vs| - 1].loc.depth else d
  }

  /** Depth-first order on the visits alone: the first visit is at depth 0,
      and no visit is more than one deeper than the deepest visit before it. */
  predicate VisitsDepthFirst(vs: seq<Visit>)
  {
    vs == [] ||
    (VisitsDepthFirst(vs[..|vs| - 1]) && vs[|vs| - 1].loc.depth <= Deepest(vs[..|vs| - 1]) + 1)
  }

  /** Under depth-first order the table has one entry per depth from 0 to the
      deepest, so the recorder's precondition holds at every visit. */
  lemma {:induction false} VisitsDepthFirstIsDepthFirst(vs: seq<Visit>)
    requires VisitsDepthFirst(vs)
    ensures DepthFirst(vs) && |Walk(vs).lastAtDepth| == Deepest(vs) + 1
  {
    if vs != [] {
      VisitsDepthFirstIsDepthFirst(vs[..|vs| - 1]);
    }
  }

  /** Conversely, the recorder's table-size precondition at every visit is
      depth-first order on the visits alone. */
  lemma {:induction false} DepthFirstIsVisitsDepthFirst(vs: seq<Visit>)
    requires DepthFirst(vs)
    ensures VisitsDepthFirst(vs) && |Walk(vs).lastAtDepth| == Deepest(vs) + 1
  {
    if vs != [] {
      DepthFirstIsVisitsDepthFirst(vs[..|vs| - 1]);
    }
  }

  /** Every depth-first walk leaves the recorded ranges chained. */
  lemma {:induction false} WalkChained(vs: seq<Visit>)
    requires DepthFirst(vs)
    ensures Chained(Walk(vs))
  {
    if vs != [] {
      WalkChained(vs[..|vs| - 1]);
      RecordKeepsChained(Walk(vs[..|vs| - 1]), Describe(vs[|vs| - 1]));
    }
  }

  /** The i-th record describes the i-th visit: records are appended in visit
      order and only ends are patched later. */
  lemma {:induction false} WalkInVisitOrder(vs: seq<Visit>, i: nat)
    requires i < |vs|
    ensures WithEnd(Walk(vs).nodes[i], None) == Describe(vs[i])
  {
    var init := vs[..|vs| - 1];
    if i < |vs| - 1 {
      WalkInVisitOrder(init, i);
      assert init[i] == vs[i];
    }
  }

  /** Records keep the depth and the begin of their visit. */
  lemma WalkKeepsDepthsAndBegins(vs: seq<Visit>)
    ensures forall k :: 0 <= k < |vs| ==>
      Walk(vs).nodes[k].depth == vs[k].loc.depth &&
      Walk(vs).nodes[k].keys.begin == Describe(vs[k]).keys.begin
  {
    forall k | 0 <= k < |vs|
      ensures Walk(vs).nodes[k].depth == vs[k].loc.depth
      ensures Walk(vs).nodes[k].keys.begin == Describe(vs[k]).keys.begin
    {
      WalkInVisitOrder(vs, k);
    }
  }

  /** There is at most one next node at a given node's depth. */
  lemma NextAtDepthUnique(nodes: seq<NodeInfo>, i: int, j: int, j': int)
    requires NextAtDepth(nodes, i, j) && NextAtDepth(nodes, i, j')
    ensures j == j'
  {
  }

  /** In a chained layout a node's end is unbounded when no later node has its
      depth, and otherwise is the begin of the next node at its depth. */
  lemma ChainedEnd(s: Layout, i: nat)
    requires Chained(s) && i < |s.nodes|
    ensures (forall j :: i < j < |s.nodes| ==> s.nodes[j].depth != s.nodes[i].depth)
              ==> s.nodes[i].keys.end.None?
    ensures forall j :: NextAtDepth(s.nodes, i, j) ==> s.nodes[i].keys.end == s.nodes[j].keys.begin
  {
    var d := s.nodes[i].depth;
    var p := s.lastAtDepth[d];
    assert s.nodes[p].depth == d && i <= p;
    if i < p {
      var j :| NextAtDepth(s.nodes, i, j) && s.nodes[i].keys.end == s.nodes[j].keys.begin;
      forall j' | NextAtDepth(s.nodes, i, j')
        ensures s.nodes[i].keys.end == s.nodes[j'].keys.begin
      {
        NextAtDepthUnique(s.nodes, i, j, j');
      }
    } else {
      assert forall j :: i < j < |s.nodes| ==> j <= s.lastAtDepth[s.nodes[j].depth];
    }
  }

  /** The first visit after i at the same depth. */
  ghost predicate NextVisitAtDepth(vs: seq<Visit>, i: int, j: int)
  {
    0 <= i < j < |vs| && vs[j].loc.depth == vs[i].loc.depth &&
    forall k :: i < k < j ==> vs[k].loc.depth != vs[i].loc.depth
  }

  /** The whole recorder in terms of the visits: the i-th record carries the
      i-th visit's leaf flag, depth, level, address and begin; its end is
      unbounded when no later visit has the same depth, and otherwise it is
      the begin of the next visit at that depth. */
  lemma WalkRanges(vs: seq<Visit>, i: nat)
    requires VisitsDepthFirst(vs) && i < |vs|
    ensures WithEnd(Walk(vs).nodes[i], None) == Describe(vs[i])
    ensures (forall j :: i < j < |vs| ==> vs[j].loc.depth != vs[i].loc.depth)
              ==> Walk(vs).nodes[i].keys.end.None?
    ensures forall j :: NextVisitAtDepth(vs, i, j) ==>
              Walk(vs).nodes[i].keys.end == Describe(vs[j]).keys.begin
  {
    VisitsDepthFirstIsDepthFirst(vs);
    var s := Walk(vs);
    WalkChained(vs);
    WalkInVisitOrder(vs, i);
    WalkKeepsDepthsAndBegins(vs);
    ChainedEnd(s, i);
    forall j | NextVisitAtDepth(vs, i, j)
      ensures s.nodes[i].keys.end == Describe(vs[j]).keys.begin
    {
      assert NextAtDepth(s.nodes, i, j);
    }
  }

  /** btree_layout */
  class BtreeLayout {
    var nodes: seq<NodeInfo>
    var lastNodeAtDepth: seq<nat>
    /** The visits so far, in order. */
    ghost var visits: seq<Visit>

    ghost predicate Valid()
      reads this
    {
      DepthFirst(visits) && Layout(nodes, lastNodeAtDepth) == Walk(visits)
    }

    constructor ()
      ensures Valid() && visits == []
      ensures nodes == [] && lastNodeAtDepth == []
    {
      nodes := [];
      lastNodeAtDepth := [];
      visits := [];
    }

    /** record_node */
    method RecordNode(leaf: bool, loc: NodeLocation, n: NodeView)
      requires Valid()
      requires loc.depth <= |lastNodeAtDepth|
      modifies this
      ensures Valid() && visits == old(visits) + [Visit(leaf, loc, n)]
      ensures Layout(nodes, lastNodeAtDepth)
                == Record(old(Layout(nodes, lastNodeAtDepth)), Describe(Visit(leaf, loc, n)))
      ensures Chained(Layout(nodes, lastNodeAtDepth))
    {
      var ni := NodeInfo(leaf, loc.depth, loc.level, n.location, Range(None, None));
      if |n.keys| > 0 {
        ni := ni.(keys := Range(Some(n.keys[0]), None));
      } else if loc.key.Some? {
        ni := ni.(keys := Range(Some(loc.key.value), None));
      } else {
        ni := ni.(keys := Range(None, None));
      }

      if loc.depth < |lastNodeAtDepth| {
        var last := lastNodeAtDepth[loc.depth];
        nodes := nodes[last := WithEnd(nodes[last], ni.keys.begin)];
        lastNodeAtDepth := lastNodeAtDepth[loc.depth := |nodes|];
      } else {
        lastNodeAtDepth := lastNodeAtDepth + [|nodes|];
      }
      nodes := nodes + [ni];

      visits := visits + [Visit(leaf, loc, n)];
      assert visits[..|visits| - 1] == old(visits);
      WalkChained(visits);
    }

    /** visit_internal: records an internal node and continues. */
    method VisitInternal(loc: NodeLocation, n: NodeView) returns (cont: bool)
      requires Valid()
      requires loc.depth <= |lastNodeAtDepth|
      modifies this
      ensures Valid() && visits == old(visits) + [Visit(false, loc, n)]
      ensures Layout(nodes, lastNodeAtDepth)
                == Record(old(Layout(nodes, lastNodeAtDepth)), Describe(Visit(false, loc, n)))
      ensures cont
    {
      RecordNode(false, loc, n);
      cont := true;
    }

    /** visit_internal_leaf: the bottom node of a non-terminal level is
        recorded as a leaf; continues. */
    method VisitInternalLeaf(loc: NodeLocation, n: NodeView) returns (cont: bool)
      requires Valid()
      requires loc.depth <= |lastNodeAtDepth|
      modifies this
      ensures Valid() && visits == old(visits) + [Visit(true, loc, n)]
      ensures Layout(nodes, lastNodeAtDepth)
                == Record(old(Layout(nodes, lastNodeAtDepth)), Describe(Visit(true, loc, n)))
      ensures cont
    {
      RecordNode(true, loc, n);
      cont := true;
    }

    /** visit_leaf: records a leaf and continues. */
    method VisitLeaf(loc: NodeLocation, n: NodeView) returns (cont: bool)
      requires Valid()
      requires loc.depth <= |lastNodeAtDepth|
      modifies this
      ensures Valid() && visits == old(visits) + [Visit(true, loc, n)]
      ensures Layout(nodes, lastNodeAtDepth)
                == Record(old(Layout(nodes, lastNodeAtDepth)), Describe(Visit(true, loc, n)))
      ensures cont
    {
      RecordNode(true, loc, n);
      cont := true;
    }

    /** visit_complete: nothing to do; the layout is left as it is. */
    method VisitComplete()
      ensures nodes == old(nodes) && lastNodeAtDepth == old(lastNodeAtDepth)
      ensures visits == old(visits)
    {
    }

    /** get_nodes: one record per visit, in visit order. */
    method GetNodes() returns (r: seq<NodeInfo>)
      requires Valid()
      ensures r == nodes && |r| == |visits|
      ensures forall i :: 0 <= i < |r| ==> WithEnd(r[i], None) == Describe(visits[i])
    {
      r := nodes;
      forall i | 0 <= i < |r| ensures WithEnd(r[i], None) == Describe(visits[i]) {
        WalkInVisitOrder(visits, i);
      }
    }

    /** random_node: fails when nothing was recorded, otherwise the record at
        index rnd % size, rnd standing for ::random(). */
    method RandomNode(rnd: nat) returns (r: Result<NodeInfo, string>)
      ensures r.Failure? <==> nodes == []
      ensures r.Failure? ==> r.error == "no nodes in btree"
      ensures r.Success? ==> rnd % |nodes| < |nodes| && r.value == nodes[rnd % |nodes|]
    {
      if |nodes| == 0 {
        return Failure("no nodes in btree");
      }
      r := Success(nodes[rnd % |nodes|]);
    }
  }
}
