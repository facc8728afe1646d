# btree_layout and the damage-visitor test fixture, modelled in Dafny

This project models the self-contained logic in `unit-tests/btree_damage_visitor_t.cc` of
thin-provisioning-tools. That file tests the B-tree damage visitor by trashing one leaf block
and checking which values and which damage record the visitor then reports.

- **`btree_layout`** is a tree visitor that records one `node_info` per visited node. Each record
  holds the leaf flag, the depth, the level, the block address and a half-open key range.
  - A node's range begins at its first key. An empty node falls back to the key of the location it
    was reached under, and failing that the begin is unbounded.
  - The end of a node's range is not known when the node is recorded. The visit order is
    depth first, lowest to highest, so it is filled in when the next node at the same depth
    arrives, through the per-depth table of last nodes.
  - At every depth the ranges therefore form a chain of adjacent ranges. The last range at each
    depth stays open.
  - The table holds shared pointers into the node list. Here it holds indices into the list.
- **`thing`** is the value type, with its equality and the `thing_traits` pack/unpack to the
  little-endian disk layout.
- **The fixture's sequential logic**:
  - the key→value mapping of `insert_values` and `expect_value_range`;
  - the loops that count the leaves and pick the `random() % nr_leaf`-th one;
  - the values and the damage record the test expects once that leaf is trashed.

Files:
- `wrappers.dfy`: `Option` and `Result`.
- `types.dfy`: the fixed-width integers `byte`, `u32` and `u64`.
- `things.dfy`, module `Things`: `thing`, `thing_disk` and the value traits.
- `btree_layout.dfy`, module `LayoutRecorder`:
  - `Record` is `record_node` on values. `Walk` is the layout left by a whole sequence of visits.
  - `Chained` is the chain-of-ranges invariant. It is preserved by every depth-first visit.
  - The class `BtreeLayout` has the fields `nodes` and `lastNodeAtDepth`. Its methods update them
    in place, and each is proved against `Record`.
- `damage_visitor_test.dfy`, module `DamageVisitorTest`: the fixture logic.

The integer widths of `thing`, `insert_values` and `expect_value_range` are explicit.
`insert_values` computes `i + 1234` in 32-bit unsigned arithmetic. `expect_value_range` computes `begin + 1234` in 64 bits. The two mappings
agree only while `i + 1234 < 2^32`. `InsertValues` states this, and it holds for the 10000 keys
the tests insert.

## Model

| member | source | states |
|---|---|---|
| `Things.Equal` | unit-tests/btree_damage_visitor_t.cc:28-30 | `operator==` holds exactly when the two things are equal, i.e. both `x` and `y` match |
| `Things.ToDisk32` | unit-tests/btree_damage_visitor_t.cc:52 | `to_disk<le32>` yields the 4-byte little-endian image of the value: decoding it gives the value back |
| `Things.ToCpu32` | unit-tests/btree_damage_visitor_t.cc:47 | `to_cpu<uint32_t>` yields the value whose `to_disk` image is exactly the given le32 |
| `Things.ToDisk64` | unit-tests/btree_damage_visitor_t.cc:53 | `to_disk<le64>` yields the 8-byte little-endian image of the value: decoding it gives the value back |
| `Things.ToCpu64` | unit-tests/btree_damage_visitor_t.cc:48 | `to_cpu<uint64_t>` yields the value whose `to_disk` image is exactly the given le64 |
| `Things.Pack` | unit-tests/btree_damage_visitor_t.cc:51-54 | `pack` stores each field so that `to_cpu` reads back `x` and `y`; its round trip with `unpack` is `UnpackPack` |
| `Things.Unpack` | unit-tests/btree_damage_visitor_t.cc:46-49 | `unpack` yields the thing whose `pack` is exactly the given disk value; the other round trip is `PackUnpack` |
| `Things.EndianInverse` | unit-tests/btree_damage_visitor_t.cc:47-53 | `to_cpu` undoes `to_disk` and `to_disk` undoes `to_cpu`, for le32 and le64 |
| `Things.UnpackPack` | unit-tests/btree_damage_visitor_t.cc:46-54 | unpacking a packed thing gives a thing equal (by `operator==`) to the original |
| `Things.PackUnpack` | unit-tests/btree_damage_visitor_t.cc:46-54 | packing an unpacked `thing_disk` gives back the same disk bytes |
| `LayoutRecorder.Describe` | unit-tests/btree_damage_visitor_t.cc:111-125 | the new record copies leaf, depth, level and block address. Its begin is the first key if the node has entries, else the inherited location key, else unbounded. Its end is unset |
| `LayoutRecorder.Record` | unit-tests/btree_damage_visitor_t.cc:127-135 | one record is appended at the end. For a depth already in the table, the previous last node there gets the new begin as its end, nothing else in the list changes, and the table entry moves to the new node. For a new depth, the table grows by exactly one entry for the new node |
| `LayoutRecorder.RecordKeepsTable` | unit-tests/btree_damage_visitor_t.cc:127-133 | under depth-first order, the table still has one entry per depth, pointing at the latest node of that depth, whose end is unset |
| `LayoutRecorder.RecordKeepsChained` | unit-tests/btree_damage_visitor_t.cc:127-135 | under depth-first order, recording a node keeps the per-depth chain: every non-last node ends where the next node at its depth begins, and the last one is open |
| `LayoutRecorder.Walk` | unit-tests/btree_damage_visitor_t.cc:108-136 | a walk leaves exactly one record per visit, and every table entry points into the record list |
| `LayoutRecorder.WalkChained` | unit-tests/btree_damage_visitor_t.cc:108-135 | after any depth-first walk the recorded ranges are chained |
| `LayoutRecorder.VisitsDepthFirstIsDepthFirst` | unit-tests/btree_damage_visitor_t.cc:108 | if the first visit is at depth 0 and no visit goes more than one deeper than the deepest before it, then every visit meets the recorder's table-size precondition, and the table has one entry per depth up to the deepest |
| `LayoutRecorder.DepthFirstIsVisitsDepthFirst` | unit-tests/btree_damage_visitor_t.cc:108 | conversely, visits that meet the recorder's table-size precondition at every step are in depth-first order on the visits alone, so results stated for depth-first visits, such as `WalkRanges`, apply to any valid `BtreeLayout`'s history |
| `LayoutRecorder.WalkInVisitOrder` | unit-tests/btree_damage_visitor_t.cc:110-135 | the i-th record describes the i-th visit; later visits only patch its end |
| `LayoutRecorder.WalkKeepsDepthsAndBegins` | unit-tests/btree_damage_visitor_t.cc:113-125 | every record keeps the depth and the begin of its own visit |
| `LayoutRecorder.ChainedEnd` | unit-tests/btree_damage_visitor_t.cc:127-131 | in a chained layout, a node with no later node at its depth has an open end, and otherwise its end is the begin of the next node at its depth |
| `LayoutRecorder.WalkRanges` | unit-tests/btree_damage_visitor_t.cc:108-135 | the recorder stated in terms of the visits. Record i has visit i's fields and begin. Its end is open if no later visit has the same depth, and is otherwise the begin of the next visit at that depth |
| `LayoutRecorder.BtreeLayout.constructor` | unit-tests/btree_damage_visitor_t.cc:138-139 | a new layout has no records and an empty table |
| `LayoutRecorder.BtreeLayout.RecordNode` | unit-tests/btree_damage_visitor_t.cc:110-136 | updates `nodes` and `lastNodeAtDepth` in place exactly as `Record` does, appends the visit to the history and keeps the ranges chained |
| `LayoutRecorder.BtreeLayout.VisitInternal` | unit-tests/btree_damage_visitor_t.cc:74-78 | records the node with `leaf = false` and returns true (continue) |
| `LayoutRecorder.BtreeLayout.VisitInternalLeaf` | unit-tests/btree_damage_visitor_t.cc:80-84 | records the node with `leaf = true` and returns true |
| `LayoutRecorder.BtreeLayout.VisitLeaf` | unit-tests/btree_damage_visitor_t.cc:87-91 | records the node with `leaf = true` and returns true |
| `LayoutRecorder.BtreeLayout.VisitComplete` | unit-tests/btree_damage_visitor_t.cc:93-94 | changes nothing: the records, the table and the visit history are as before |
| `LayoutRecorder.BtreeLayout.GetNodes` | unit-tests/btree_damage_visitor_t.cc:96-98 | returns the records, one per visit in visit order, each describing its visit up to its end |
| `LayoutRecorder.BtreeLayout.RandomNode` | unit-tests/btree_damage_visitor_t.cc:100-105 | fails with "no nodes in btree" exactly when nothing was recorded. Otherwise it returns the record at index `rnd % size`, which is in bounds |
| `DamageVisitorTest.InsertValues` | unit-tests/btree_damage_visitor_t.cc:175-182 | inserts keys 0..nr-1 in order, key i with `thing(i, i + 1234)`. While the 32-bit sum does not wrap, each value is the one `expect_value_range` expects for its key |
| `DamageVisitorTest.InsertedValue` | unit-tests/btree_damage_visitor_t.cc:176-178 | the value inserted under key i has `x = i`, and `y = i + 1234` computed in 32 bits: it wraps to `i + 1234 - 2^32` once the sum reaches 2^32 |
| `DamageVisitorTest.ExpectedValue` | unit-tests/btree_damage_visitor_t.cc:190 | the value expected for a 64-bit key k has `x` equal to k's low 32 bits (k itself below 2^32), and `y = k + 1234` computed in 64 bits, wrapping once the sum reaches 2^64 |
| `DamageVisitorTest.ExpectValueRange` | unit-tests/btree_damage_visitor_t.cc:188-193 | expects one value per key of `[begin, end)`, in key order. A key's value is expected exactly when the key is in range, and nothing is expected when `begin >= end` |
| `DamageVisitorTest.LeafCount` | unit-tests/btree_damage_visitor_t.cc:277-280 | the number of leaf records never exceeds the number of records |
| `DamageVisitorTest.CountLeaves` | unit-tests/btree_damage_visitor_t.cc:277-280 | the counting loop yields `nr_leaf`, the number of leaf records |
| `DamageVisitorTest.LeafCountMonotone` | unit-tests/btree_damage_visitor_t.cc:277-280 | a longer prefix holds at least as many leaves |
| `DamageVisitorTest.LeafPositionUnique` | unit-tests/btree_damage_visitor_t.cc:284-290 | two leaves with the same number of leaves before them are the same record, so the selection loop's answer is unique |
| `DamageVisitorTest.SelectLeaf` | unit-tests/btree_damage_visitor_t.cc:283-292 | for `target < nr_leaf` the loop stops inside the list, on a leaf with exactly `target` leaves before it |
| `DamageVisitorTest.PickLeaf` | unit-tests/btree_damage_visitor_t.cc:277-292 | with at least one leaf (a divisor), the chosen record is a leaf with `random() % nr_leaf` leaves before it |
| `DamageVisitorTest.SurvivorBoundsAsWritten` | unit-tests/btree_damage_visitor_t.cc:297-298 | the dereferenced bounds are undefined exactly when the begin or the end is unset. When both are set, the keys below the begin or at/after the end are exactly those outside the range |
| `DamageVisitorTest.SurvivorBounds` | unit-tests/btree_damage_visitor_t.cc:297-298 | corrected bounds: for every key below the key count, it is expected to survive exactly when it is outside the trashed node's range, including when the end is open |
| `DamageVisitorTest.ExpectDamagedLeaf` | unit-tests/btree_damage_visitor_t.cc:297-299 | (corrected bounds, see ## Findings) for a range inside [0, nrKeys), a value is expected exactly for the keys below nrKeys outside the trashed node's range, and nothing else is expected. Each such value is expected once (`Times(1)`). One level-0 damage record covers the range |
| `DamageVisitorTest.LastLeafEndUnset` | unit-tests/btree_damage_visitor_t.cc:282-298 | if the walk ends on a leaf and `target` is the last leaf, the chosen record is the last one, its end is unset, and the as-written bounds are undefined |
| `DamageVisitorTest.TwoLeafExample` | unit-tests/btree_damage_visitor_t.cc:108-135 | in a concrete depth-first walk of a root and two leaves, the first leaf's range is [0, 5). The second leaf's range is [5, open), so its as-written bounds are undefined |

## Left out

- The B-tree (`btree<...>`, `insert`, `visit_depth_first`), `btree_damage_visitor` and the damage type: only their headers are referenced, so there is no code to model. A node is reduced to what `record_node` reads: its block address and its keys.
- Block manager, space map, transaction manager, `commit()` and `trash_block`: block I/O and transaction plumbing.
- The gmock mocks and `EXPECT_CALL` assertions: only the values and the damage record they expect are modelled. The damage description string is not modelled.
- `expect_no_values`, `expect_nr_values`, `expect_value` and `expect_no_damage` are further test-framework assertions. `expect_nr_values(nr)` is `ExpectValueRange(0, nr)`.
- `::random()`, `cerr` output and `with_temp_directory`: the random number is a parameter (`rnd`), and the others are I/O.
- `boost::shared_ptr` ownership: table entries are indices into the record list, so aliasing of a record by the table is captured only as "the table entry names that record".
- LayoutRecorder.BtreeLayout.GetNodes returns a copy of the record list, where `get_nodes` returns a const reference. A caller holding the reference would also see ends patched by later visits; the copy shows the list as it was when it was taken. The test calls it only after the walk has finished.
- `to_cpu` and `to_disk` come from `persistent-data/endian_utils.h`, which is not part of this model. An le32/le64 is modelled as the 4/8-byte little-endian image of the integer, which is what those conversions produce regardless of the host's byte order.
- Depths and levels are `unsigned` in the source. They are unbounded naturals here because no arithmetic is done on them.
- The constants `BLOCK_SIZE`, `NR_BLOCKS` and `SUPERBLOCK` only configure the block manager.
- LayoutRecorder.BtreeLayout.RecordNode requires `loc.depth <= |lastNodeAtDepth|`. The source depends on depth-first order for this, as its comment at line 108 says. For a deeper depth it would push a table entry at the wrong index. `Record` itself models that branch as written.
- LayoutRecorder.BtreeLayout.VisitInternal, VisitInternalLeaf and VisitLeaf carry the same depth-first precondition, for the same reason.
- DamageVisitorTest.CountLeaves, SelectLeaf and PickLeaf: the counters `nr_leaf`, `target` and `i` are `unsigned` in the source but unbounded naturals here, so they agree with the source only while the record list has fewer than 2^32 entries. Beyond that `nr_leaf++` would wrap and the `unsigned i < nodes.size()` loop would never end. The random number `rnd` is any natural, while `::random()` returns a value in [0, 2^31).
- DamageVisitorTest.ExpectDamagedLeaf requires the trashed range to lie inside [0, nrKeys) with its begin not after its end. The source does not check this. The trashed leaf meets it, because its bounds are its own first key and the next leaf's first key.
- DamageVisitorTest.PickLeaf requires at least one leaf record. The source divides by `nr_leaf` without a guard, and dividing by zero is undefined. Every walk of a tree records at least one leaf, so the test's call meets this requirement.

## Findings

| source | as written | input that shows it | evidently intended | confidence | as-written member | corrected member |
|---|---|---|---|---|---|---|
| unit-tests/btree_damage_visitor_t.cc:298 | `expect_value_range(*n->keys.end_, 10000)` dereferences the end of the trashed leaf's range. `record_node` never sets the end of the last node at a depth, so the end is unset when the chosen leaf is the tree's last leaf | `random() % nr_leaf == nr_leaf - 1`, i.e. the last leaf (`LastLeafEndUnset`). `TwoLeafExample` shows it on a root with two leaves | when the end is unset, expect survivors only below the begin, i.e. use the key count as the upper bound | medium, not executed | `DamageVisitorTest.SurvivorBoundsAsWritten` | `DamageVisitorTest.SurvivorBounds` |
