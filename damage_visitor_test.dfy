/** The sequential logic of the damage-visitor test fixture: the key to value
    mapping of insert_values / expect_value_range, the selection of a random
    leaf among the recorded nodes, and the values and damage the test expects
    once that leaf is trashed. */
module DamageVisitorTest {
  import opened Wrappers
  import opened Types
  import opened Things
  import opened LayoutRecorder

  /** thing value(i, i + 1234) in insert_values: i is an unsigned, so the sum
      wraps at 2^32 before it is widened to the 64-bit y. */
  function InsertedValue(i: u32): (t: Thing)
    ensures t.x == i
    ensures i as int + 1234 < 0x1_0000_0000 ==> t.y as int == i as int + 1234
    ensures i as int + 1234 >= 0x1_0000_0000 ==> t.y as int == i as int + 1234 - 0x1_0000_0000
  {
    Thing(i, ((i as int + 1234) % 0x1_0000_0000) as u64)
  }

  /** thing(begin, begin + 1234) in expect_value_range: begin is a uint64_t,
      truncated to 32 bits for x, and the sum wraps at 2^64. */
  function ExpectedValue(k: u64): (t: Thing)
    ensures k as int < 0x1_0000_0000 ==> t.x as int == k as int
    ensures (k as int - t.x as int) % 0x1_0000_0000 == 0
    ensures k as int + 1234 < 0x1_0000_0000_0000_0000 ==> t.y as int == k as int + 1234
    ensures k as int + 1234 >= 0x1_0000_0000_0000_0000 ==>
              t.y as int == k as int + 1234 - 0x1_0000_0000_0000_0000
  {
    Thing((k as int % 0x1_0000_0000) as u32, ((k as int + 1234) % 0x1_0000_0000_0000_0000) as u64)
  }

  /** Distinct keys are expected with distinct values. */
  lemma ExpectedValueInjective(k1: u64, k2: u64)
    ensures ExpectedValue(k1) == ExpectedValue(k2) ==> k1 == k2
  {
  }

  /** insert_values: inserts key i with value thing(i, i + 1234) for i in
      [0, nr), in that order; while i + 1234 does not wrap, each inserted value
      is the one expect_value_range expects for its key. */
  method InsertValues(nr: u32) returns (inserts: seq<(u64, Thing)>)
    ensures |inserts| == nr as int
    ensures forall i :: 0 <= i < |inserts| ==> inserts[i] == (i as u64, InsertedValue(i as u32))
    ensures nr as int + 1234 <= 0x1_0000_0000 ==>
              forall i :: 0 <= i < |inserts| ==> inserts[i].1 == ExpectedValue(inserts[i].0)
  {
    inserts := [];
    var i: u32 := 0;
    while i < nr
      invariant i <= nr
      invariant |inserts| == i as int
      invariant forall j :: 0 <= j < |inserts| ==> inserts[j] == (j as u64, InsertedValue(j as u32))
    {
      inserts := inserts + [(i as u64, InsertedValue(i))];
      i := i + 1;
    }
  }

  /** expect_value_range: one expected value per key of [begin, end), in key
      order, and the expected values are exactly those of the keys in range. */
  method ExpectValueRange(begin: u64, end: u64) returns (expected: seq<Thing>)
    ensures |expected| == if begin < end then (end - begin) as int else 0
    ensures forall j :: 0 <= j < |expected| ==> expected[j] == ExpectedValue((begin as int + j) as u64)
    ensures forall k: u64 :: ExpectedValue(k) in expected <==> begin <= k < end
  {
    expected := [];
    var b := begin;
    while b < end
      invariant begin <= b && (begin < end ==> b <= end) && (end <= begin ==> b == begin)
      invariant |expected| == (b - begin) as int
      invariant forall j :: 0 <= j < |expected| ==> expected[j] == ExpectedValue((begin as int + j) as u64)
    {
      expected := expected + [ExpectedValue(b)];
      b := b + 1;
    }
    forall k: u64 ensures ExpectedValue(k) in expected <==> begin <= k < end {
      if begin <= k < end {
        assert expected[(k - begin) as int] == ExpectedValue(k);
      }
      if ExpectedValue(k) in expected {
        var j :| 0 <= j < |expected| && expected[j] == ExpectedValue(k);
        ExpectedValueInjective(k, (begin as int + j) as u64);
      }
    }
  }

  /** The number of leaf records among nodes. */
  function LeafCount(nodes: seq<NodeInfo>): (n: nat)
    ensures n <= |nodes|
  {
    if nodes == [] then 0
    else LeafCount(nodes[..|nodes| - 1]) + (if nodes[|nodes| - 1].leaf then 1 else 0)
  }

  lemma LeafCountStep(nodes: seq<NodeInfo>, i: nat)
    requires i < |nodes|
    ensures LeafCount(nodes[..i + 1]) == LeafCount(nodes[..i]) + (if nodes[i].leaf then 1 else 0)
  {
    assert nodes[..i + 1][..i] == nodes[..i];
  }

  /** Leaf counts of prefixes grow with the prefix. */
  lemma {:induction false} LeafCountMonotone(nodes: seq<NodeInfo>, i: nat, j: nat)
    requires i <= j <= |nodes|
    ensures LeafCount(nodes[..i]) <= LeafCount(nodes[..j])
  {
    if i < j {
      LeafCountMonotone(nodes, i, j - 1);
      LeafCountStep(nodes, j - 1);
    }
  }

  /** A leaf is identified by the number of leaves before it. */
  lemma LeafPositionUnique(nodes: seq<NodeInfo>, i: nat, j: nat)
    requires i < |nodes| && j < |nodes| && nodes[i].leaf && nodes[j].leaf
    requires LeafCount(nodes[..i]) == LeafCount(nodes[..j])
    ensures i == j
  {
    if i < j {
      LeafCountStep(nodes, i);
      LeafCountMonotone(nodes, i + 1, j);
    } else if j < i {
      LeafCountStep(nodes, j);
      LeafCountMonotone(nodes, j + 1, i);
    }
  }

  /** The loop that counts nr_leaf. */
  method CountLeaves(nodes: seq<NodeInfo>) returns (nrLeaf: nat)
    ensures nrLeaf == LeafCount(nodes)
  {
    nrLeaf := 0;
    var i := 0;
    while i < |nodes|
      invariant i <= |nodes|
      invariant nrLeaf == LeafCount(nodes[..i])
    {
      LeafCountStep(nodes, i);
      if nodes[i].leaf {
        nrLeaf := nrLeaf + 1;
      }
      i := i + 1;
    }
    assert nodes[..i] == nodes;
  }

  /** The loop that finds the target-th leaf (counting from 0): it stops on a
      leaf with exactly target leaves before it, never past the end. */
  method SelectLeaf(nodes: seq<NodeInfo>, target: nat) returns (i: nat)
    requires target < LeafCount(nodes)
    ensures i < |nodes| && nodes[i].leaf
    ensures LeafCount(nodes[..i]) == target
  {
    assert nodes[..|nodes|] == nodes;
    var t := target;
    i := 0;
    while i < |nodes|
      invariant i <= |nodes|
      invariant LeafCount(nodes[..i]) + t == target
    {
      LeafCountStep(nodes, i);
      if nodes[i].leaf {
        if t == 0 {
          break;
        }
        t := t - 1;
      }
      i := i + 1;
    }
  }

  /** The test's choice of the leaf to trash: target = random() % nr_leaf
      (rnd stands for random(); nr_leaf must not be zero, it is a divisor). */
  method PickLeaf(nodes: seq<NodeInfo>, rnd: nat) returns (i: nat)
    requires LeafCount(nodes) > 0
    ensures i < |nodes| && nodes[i].leaf
    ensures LeafCount(nodes[..i]) == rnd % LeafCount(nodes)
  {
    var nrLeaf := CountLeaves(nodes);
    var target := rnd % nrLeaf;
    i := SelectLeaf(nodes, target);
  }

  /** The bounds passed to the two expect_value_range calls as written:
      *keys.begin_ and *keys.end_. None stands for dereferencing an unset
      boundary, which has no defined value. */
  function SurvivorBoundsAsWritten(keys: Range): (r: Option<(u64, u64)>)
    ensures r.None? <==> keys.begin.None? || keys.end.None?
    ensures r.Some? ==> forall k: u64 :: (k < r.value.0 || r.value.1 <= k) <==> !InRange(keys, k)
  {
    if keys.begin.Some? && keys.end.Some? then Some((keys.begin.value, keys.end.value)) else None
  }

  /** The bounds evidently intended: an unset end means the trashed leaf runs
      to the end of the key space, so values survive below its begin only; an
      unset begin (an empty root) leaves nothing below it. Exactly the keys
      outside the damaged range survive. */
  function SurvivorBounds(keys: Range, nrKeys: u64): (b: (u64, u64))
    ensures forall k: u64 :: k < nrKeys ==> ((k < b.0 || b.1 <= k) <==> !InRange(keys, k))
  {
    (if keys.begin.Some? then keys.begin.value else 0,
     if keys.end.Some? then keys.end.value else nrKeys)
  }

  /** The range lies inside [0, nrKeys) and does not run backwards: true of a
      trashed leaf, whose bounds are its own first key and the next leaf's. */
  predicate WithinKeys(r: Range, nrKeys: u64)
  {
    && (r.begin.Some? ==> r.begin.value <= nrKeys)
    && (r.end.Some? ==> r.end.value <= nrKeys && (r.begin.Some? ==> r.begin.value <= r.end.value))
  }

  /** The damage record the test expects: level 0, the trashed node's range. */
  datatype Damage = Damage(level: nat, keys: Range)

  /** What the damaged-leaf test expects after trashing node n of a tree
      holding keys [0, nrKeys): each value of a key outside n's range exactly
      once, no other value, and one damage record covering n's range. */
  method ExpectDamagedLeaf(n: NodeInfo, nrKeys: u64) returns (values: seq<Thing>, damage: Damage)
    requires WithinKeys(n.keys, nrKeys)
    ensures forall k: u64 :: ExpectedValue(k) in values <==> k < nrKeys && !InRange(n.keys, k)
    ensures forall v :: v in values ==>
              exists k: u64 :: k < nrKeys && !InRange(n.keys, k) && v == ExpectedValue(k)
    ensures forall i, j :: 0 <= i < j < |values| ==> values[i] != values[j]
    ensures damage == Damage(0, n.keys)
  {
    var bounds := SurvivorBounds(n.keys, nrKeys);
    var low := ExpectValueRange(0, bounds.0);
    var high := ExpectValueRange(bounds.1, nrKeys);
    values := low + high;
    forall i, j | 0 <= i < j < |values| ensures values[i] != values[j] {
      var ki := if i < |low| then i else bounds.1 as int + (i - |low|);
      var kj := if j < |low| then j else bounds.1 as int + (j - |low|);
      assert values[i] == ExpectedValue(ki as u64);
      assert values[j] == ExpectedValue(kj as u64);
      ExpectedValueInjective(ki as u64, kj as u64);
    }
    forall v | v in values
      ensures exists k: u64 :: k < nrKeys && !InRange(n.keys, k) && v == ExpectedValue(k)
    {
      var i :| 0 <= i < |values| && values[i] == v;
      var k := if i < |low| then i else bounds.1 as int + (i - |low|);
      assert values[i] == ExpectedValue(k as u64);
    }
    damage := Damage(0, n.keys);
  }

  /** When the random leaf is the last leaf of the layout and the walk ended
      on a leaf, the chosen record is the last one recorded, its end was never
      patched, and the as-written bounds dereference an unset end. */
  lemma LastLeafEndUnset(s: Layout, i: nat)
    requires Chained(s) && |s.nodes| > 0 && s.nodes[|s.nodes| - 1].leaf
    requires i < |s.nodes| && s.nodes[i].leaf
    requires LeafCount(s.nodes[..i]) == LeafCount(s.nodes) - 1
    ensures i == |s.nodes| - 1
    ensures s.nodes[i].keys.end.None?
    ensures SurvivorBoundsAsWritten(s.nodes[i].keys).None?
  {
    var last := |s.nodes| - 1;
    LeafCountStep(s.nodes, last);
    assert s.nodes[..last + 1] == s.nodes;
    LeafPositionUnique(s.nodes, i, last);
    ChainedEnd(s, last);
  }

  /** A two-leaf tree of keys 0..9: the root (block 1, keys 0 and 5) then its
      leaves (blocks 2 and 3). The first leaf's range is [0, 5); the second
      leaf is the last one and keeps an open end. */
  function TwoLeafWalk(): seq<Visit>
  {
    [ Visit(false, NodeLocation(0, 0, None), NodeView(1, [0, 5])),
      Visit(true, NodeLocation(1, 0, None), NodeView(2, [0, 1, 2, 3, 4])),
      Visit(true, NodeLocation(1, 0, Some(5)), NodeView(3, [5, 6, 7, 8, 9])) ]
  }

  lemma TwoLeafExample()
    ensures DepthFirst(TwoLeafWalk())
    ensures Walk(TwoLeafWalk()).nodes[1].keys == Range(Some(0), Some(5))
    ensures Walk(TwoLeafWalk()).nodes[2].keys == Range(Some(5), None)
    ensures LeafCount(Walk(TwoLeafWalk()).nodes) == 2
    ensures SurvivorBoundsAsWritten(Walk(TwoLeafWalk()).nodes[2].keys).None?
  {
    var vs := TwoLeafWalk();
    assert vs[..1][..0] == [];
    assert Walk(vs[..1]).lastAtDepth == [0];
    assert DepthFirst(vs[..1]);
    assert vs[..2][..1] == vs[..1];
    assert DepthFirst(vs[..2]);
    assert vs[..3] == vs;
    var s := Walk(vs);
    assert s.nodes[..3] == s.nodes;
  }
}
