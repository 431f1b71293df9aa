# Group-aware automatic layout, modelled in Dafny

This project models the layout core of a framework that draws directed
node-link graphs whose nodes can be nested into groups, together with the
factory rule that guards link creation.

The layout computer (`AutoGroupLayoutComputer`) gives every node of a
container a grid coordinate. It works in five steps:

1. The graph compacter replaces every child group by a placeholder leaf, and
   the base layout engine lays the compacted graph out.
2. Every leaf copy is recorded under the original leaf it copies. Every
   placeholder is kept under its own key as the group's *anchor*.
3. Each child group is laid out on its own, recursively.
4. Child groups are taken in their fixed sorted order. For each one, the
   bounding extent of its own coordinates is scanned. Every other entry at or
   right of the anchor moves right by the extent's width (`pushLeft`). Every
   other entry at or below the anchor moves down by its height (`pushDown`).
5. Each anchor is replaced by the group's coordinates shifted by the anchor.
   A group without direct leaves is placed at the anchor itself instead.

Looking up a node that has no coordinate gives the origin.

Files:

- `geometry.dfy` (module `Geometry`): integer grid points and the extent scan.
  The scan is kept exactly as the source writes it. A separately defined
  intended bounding box sits beside it for comparison.
- `auto_group_layout.dfy` (module `AutoGroupLayout`): the coordinate map and
  the lookup, the two push passes, de-aliasing of the compacted layout, the
  push pass over all groups, composition, and the recursive `Layout`.
- `layout_properties.dfy` (module `LayoutProperties`): theorems about `Layout`.
  They cover which nodes get a coordinate, where a group's nodes land, and the
  container without groups.
- `graph_factory.dfy` (module `GraphFactory`): the graph, group and leaf
  factories with their default overloads, and `createLink`'s port check.

The two collaborators whose code is not part of this model are the base
layout engine (`AutoLayoutComputer`) and `GraphCompacter`. Both are one
parameter, `compact: Container -> Compaction`. For each container it gives:

- the compacted layout;
- the placeholder set;
- the original of every leaf copy;
- the placeholder of every child group.

`Supplied` states what the layout relies on from these outputs:

- every child group has a placeholder, the base layout placed it, and it is
  listed as a placeholder. Without this the push passes read the coordinate
  of a missing key, and the source fails with a null dereference.
- different child groups have different placeholders. Without this the
  source can fail too: the first of two groups sharing a placeholder removes
  it (line 64), the second then reads a missing coordinate (line 63), and if
  that group has direct leaves line 69 dereferences it. A group without
  direct leaves survives by storing the missing coordinate (line 72).
- every leaf copy has an original, and different leaf copies have different
  originals. The source would not fail without these two: a second copy of
  the same original would overwrite the first (line 82). They are
  assumptions about `GraphCompacter`, which keep the de-aliased map
  independent of the order the copies are visited in.

`Exact` is used only by the theorems. It says the placeholders are exactly
the child groups' placeholders, and the leaf copies are copies of exactly the
container's direct leaves.

Coordinates are keyed by `Key = Node(id) | Anchor(placeholder)`. A
placeholder is a fresh object in the source, so it can never coincide with a
real node. Keeping it in its own key space makes that explicit.

## Model

| member | source | states |
|---|---|---|
| AutoGroupLayout.GetCoordinate | java/com.intel.tools.fdk.graphframework/src/com/intel/tools/fdk/graphframework/layout/AutoGroupLayoutComputer.java:114-120 | a node with a coordinate gets that coordinate; any other node gets the origin (0,0); the lookup never fails |
| AutoGroupLayout.PushLeft | java/com.intel.tools.fdk.graphframework/src/com/intel/tools/fdk/graphframework/layout/AutoGroupLayoutComputer.java:90-96 | exactly the entries other than the base whose x is at least the base's x move right by the offset; every y, the base, every entry left of the base and the key set are unchanged; with a non-negative offset no x decreases, strict x order is kept, and weak x order is kept between entries other than the base |
| AutoGroupLayout.PushDown | java/com.intel.tools.fdk.graphframework/src/com/intel/tools/fdk/graphframework/layout/AutoGroupLayoutComputer.java:98-104 | the same frame condition on the y axis: exactly the non-base entries at or below the base move down by the offset; every x, the base and the key set are unchanged |
| AutoGroupLayout.Dealias | java/com.intel.tools.fdk.graphframework/src/com/intel/tools/fdk/graphframework/layout/AutoGroupLayoutComputer.java:78-88 | a compacted node that is not a placeholder is stored under its original with its laid-out point; a placeholder is stored under its own anchor key; the map holds nothing else |
| AutoGroupLayout.PushAll | java/com.intel.tools.fdk.graphframework/src/com/intel/tools/fdk/graphframework/layout/AutoGroupLayoutComputer.java:45-59 | pushing around every group in the given order keeps the key set; `PushAllKeepsOrder` and `PushAllMakesRoom` say how the entries move |
| AutoGroupLayout.PushAllKeepsOrder | java/com.intel.tools.fdk.graphframework/src/com/intel/tools/fdk/graphframework/layout/AutoGroupLayoutComputer.java:45-59 | after the passes of all groups no entry has moved left or up, and entries strictly ordered on an axis before are strictly ordered on it after, on both axes |
| AutoGroupLayout.PushAllMakesRoom | java/com.intel.tools.fdk.graphframework/src/com/intel/tools/fdk/graphframework/layout/AutoGroupLayoutComputer.java:45-59 | for each group: every entry that is no group's placeholder and lies at or right of (at or below) the group's placeholder before the passes ends at least the group's width (height) right of (below) the placeholder after all of them, so later groups' passes never eat into the room made for an earlier one |
| AutoGroupLayout.ComposeOne | java/com.intel.tools.fdk.graphframework/src/com/intel/tools/fdk/graphframework/layout/AutoGroupLayoutComputer.java:62-73 | one group's anchor entry is removed; each of the group's own keys is written at anchor + local coordinate, or the group itself at the anchor when it has no direct leaves; every other entry is kept |
| AutoGroupLayout.ComposeAll | java/com.intel.tools.fdk.graphframework/src/com/intel/tools/fdk/graphframework/layout/AutoGroupLayoutComputer.java:61-74 | after composing all groups, every key comes from the old map or was written by a group; entries that are neither anchors nor written keep their value; when anchors and written keys are of different kinds, the key set is the old one minus the anchors plus everything written |
| AutoGroupLayout.VisitOrder | java/com.intel.tools.fdk.graphframework/src/com/intel/tools/fdk/graphframework/layout/AutoGroupLayoutComputer.java:51 | the hash-map visit lists every key of the map exactly once and nothing else |
| AutoGroupLayout.Enumerate | java/com.intel.tools.fdk.graphframework/src/com/intel/tools/fdk/graphframework/layout/AutoGroupLayoutComputer.java:51 | the visited values are the coordinates in visit order, one per key |
| AutoGroupLayout.EnumerationOnGrid | java/com.intel.tools.fdk.graphframework/src/com/intel/tools/fdk/graphframework/layout/AutoGroupLayoutComputer.java:47-56 | on a layout with no negative coordinate, the scan over the visit gives the intended bounding box, whatever the visit order |
| AutoGroupLayout.ChildOf | java/com.intel.tools.fdk.graphframework/src/com/intel/tools/fdk/graphframework/layout/AutoGroupLayoutComputer.java:46-58 | a group is pushed around its own placeholder, horizontally by exactly abs(xMax - xMin) and vertically by exactly abs(yMax - yMin) of the scan over its own layout |
| AutoGroupLayout.ChildRoom | java/com.intel.tools.fdk.graphframework/src/com/intel/tools/fdk/graphframework/layout/AutoGroupLayoutComputer.java:57-58 | every x of the group lies within its push width of the scanned x minimum and every y within its push height; on a layout with no negative coordinate the width and height are exactly the bounding box's spans |
| AutoGroupLayout.Children | java/com.intel.tools.fdk.graphframework/src/com/intel/tools/fdk/graphframework/layout/AutoGroupLayoutComputer.java:41-42 | one sub-computer per child group, in the groups' order, each holding that group's own recursive layout |
| AutoGroupLayout.Placed | java/com.intel.tools.fdk.graphframework/src/com/intel/tools/fdk/graphframework/layout/AutoGroupLayoutComputer.java:45-59 | after the push passes every group's anchor is still present and the key set is that of the de-aliased compacted layout |
| AutoGroupLayout.Layout | java/com.intel.tools.fdk.graphframework/src/com/intel/tools/fdk/graphframework/layout/AutoGroupLayoutComputer.java:35-75 | the computer's finished coordinates; its own contract is the theorems about it: `LayoutDomain` (which nodes have a coordinate), `LayoutPlacesGroup` and `GroupShapePreserved` (where a group's nodes land), `PushesOnlyGrow` and `PushesMakeRoom` (what the passes do), `LayoutWithoutGroups` and `UnknownNodeAtOrigin` |
| Geometry.ScanFrom | java/com.intel.tools.fdk.graphframework/src/com/intel/tools/fdk/graphframework/layout/AutoGroupLayoutComputer.java:51-56 | the scan's extrema keep bracketing zero; x minimum and maximum and y maximum bound every visited point and are attained by a point or by the start value; the y minimum only takes a visited y value |
| Geometry.ScanExtent | java/com.intel.tools.fdk.graphframework/src/com/intel/tools/fdk/graphframework/layout/AutoGroupLayoutComputer.java:47-56 | starting from all zeros, the extent brackets zero and bounds every point's x, and every point's y from above |
| Geometry.ScanOffsetsAreSpans | java/com.intel.tools.fdk.graphframework/src/com/intel/tools/fdk/graphframework/layout/AutoGroupLayoutComputer.java:57-58 | the offsets handed to the push passes are non-negative: the absolute value is just max - min, and the height reaches every point's y |
| Geometry.IntendedExtent | java/com.intel.tools.fdk.graphframework/src/com/intel/tools/fdk/graphframework/layout/AutoGroupLayoutComputer.java:47-56 | the bounding box the loop aims for bounds every point on both axes |
| Geometry.ScanAgreesOnGrid | java/com.intel.tools.fdk.graphframework/src/com/intel/tools/fdk/graphframework/layout/AutoGroupLayoutComputer.java:55 | on points with no negative coordinate, the loop as written gives exactly the intended bounding box, with both minima at zero |
| Geometry.ScanMissesNegativeY | java/com.intel.tools.fdk.graphframework/src/com/intel/tools/fdk/graphframework/layout/AutoGroupLayoutComputer.java:55 | on the single point (-5,-3) the loop as written keeps the y minimum at 0 where the bounding box has -3, so the reported height is too small |
| LayoutProperties.ComposePlacesChild | java/com.intel.tools.fdk.graphframework/src/com/intel/tools/fdk/graphframework/layout/AutoGroupLayoutComputer.java:61-74 | when no two groups write the same key, composition leaves every group's anchor absent and every group's keys at anchor + local coordinate (or the group at its anchor) |
| LayoutProperties.LayoutDomain | java/com.intel.tools.fdk.graphframework/src/com/intel/tools/fdk/graphframework/layout/AutoGroupLayoutComputer.java:35-75 | the nodes with a coordinate are exactly the direct leaves plus, per child group, the group's own layout's nodes (when it has direct leaves) or the group itself (when it has none), so nothing below a group without direct leaves is copied up; no placeholder remains |
| LayoutProperties.LayoutPlacesGroup | java/com.intel.tools.fdk.graphframework/src/com/intel/tools/fdk/graphframework/layout/AutoGroupLayoutComputer.java:61-73 | for every child group: its placeholder is placed by the passes and absent from the final map; with direct leaves, every key of its sub-layout is at the pushed anchor + local coordinate; without, the group itself is at the pushed anchor |
| LayoutProperties.GroupShapePreserved | java/com.intel.tools.fdk.graphframework/src/com/intel/tools/fdk/graphframework/layout/AutoGroupLayoutComputer.java:66-70 | a group's internal arrangement is independent of where it is placed: coordinate differences between its nodes are the same in the parent as in the group's own layout |
| LayoutProperties.LayoutWithoutGroups | java/com.intel.tools.fdk.graphframework/src/com/intel/tools/fdk/graphframework/layout/AutoGroupLayoutComputer.java:38-40 | a container without groups keeps the de-aliased compacted layout as it is, each leaf copy's point under its original |
| LayoutProperties.PushesOnlyGrow | java/com.intel.tools.fdk.graphframework/src/com/intel/tools/fdk/graphframework/layout/AutoGroupLayoutComputer.java:45-59 | at one level, the push passes keep every key, never move an entry left or up, and keep strict order on both axes |
| LayoutProperties.PushesMakeRoom | java/com.intel.tools.fdk.graphframework/src/com/intel/tools/fdk/graphframework/layout/AutoGroupLayoutComputer.java:45-59 | at one level, every node at or right of (at or below) a child group's placeholder in the compacted layout ends at least the group's push width (height) right of (below) the pushed placeholder, the width and height being those `ChildOf` measures on the group's own layout |
| AutoGroupLayout.KeepsOrderKeepsDistinct | java/com.intel.tools.fdk.graphframework/src/com/intel/tools/fdk/graphframework/layout/AutoGroupLayoutComputer.java:45-59 | moves that keep strict order on both axes never bring two entries on distinct points onto one point |
| LayoutProperties.PushesKeepDistinct | java/com.intel.tools.fdk.graphframework/src/com/intel/tools/fdk/graphframework/layout/AutoGroupLayoutComputer.java:45-59 | when the compacted layout puts no two entries on one point, neither does any level after the push passes |
| LayoutProperties.DealiasOnGrid | java/com.intel.tools.fdk.graphframework/src/com/intel/tools/fdk/graphframework/layout/AutoGroupLayoutComputer.java:78-88 | a base layout with no negative coordinate gives a de-aliased map with none |
| LayoutProperties.ComposeAllOnGrid | java/com.intel.tools.fdk.graphframework/src/com/intel/tools/fdk/graphframework/layout/AutoGroupLayoutComputer.java:61-74 | composing children whose layouts are on the grid into a level on the grid stays on the grid |
| LayoutProperties.LayoutOnGrid | java/com.intel.tools.fdk.graphframework/src/com/intel/tools/fdk/graphframework/layout/AutoGroupLayoutComputer.java:35-75 | when the base layout engine places every level at non-negative coordinates, the finished layout has no negative coordinate |
| LayoutProperties.ChildSpansOnGrid | java/com.intel.tools.fdk.graphframework/src/com/intel/tools/fdk/graphframework/layout/AutoGroupLayoutComputer.java:46-58 | on the grid, the width and height a child group pushes by are exactly the spans of its finished layout's bounding box |
| LayoutProperties.NestedLeafBelowLeaflessGroupDropped | java/com.intel.tools.fdk.graphframework/src/com/intel/tools/fdk/graphframework/layout/AutoGroupLayoutComputer.java:65-73 | for a leaf in a group nested inside a group with no direct leaves, the top-level domain holds only the outer group; the nested leaf gets no coordinate |
| LayoutProperties.EmptyGroupLayout | java/com.intel.tools.fdk.graphframework/src/com/intel/tools/fdk/graphframework/layout/AutoGroupLayoutComputer.java:35-40 | a group with no leaves and no sub-groups lays out nothing: its layout is empty |
| LayoutProperties.LeaflessGroupIsOnePoint | java/com.intel.tools.fdk.graphframework/src/com/intel/tools/fdk/graphframework/layout/AutoGroupLayoutComputer.java:65-73 | a child group with no direct leaves appears in its parent's layout as one point: its own node is there and no other node of its subtree is |
| LayoutProperties.UnknownNodeAtOrigin | java/com.intel.tools.fdk.graphframework/src/com/intel/tools/fdk/graphframework/layout/AutoGroupLayoutComputer.java:114-120 | a node outside the layout's domain is reported at the origin |
| GraphFactory.CreateGraph | java/com.intel.tools.fdk.graphframework/src/com/intel/tools/fdk/graphframework/graph/factory/GraphFactory.java:57-60 | the graph holds exactly the given leaves and groups |
| GraphFactory.CreateGraphOfLeaves | java/com.intel.tools.fdk.graphframework/src/com/intel/tools/fdk/graphframework/graph/factory/GraphFactory.java:62-64 | the one-argument overload is the two-argument one with no groups |
| GraphFactory.CreateEmptyGraph | java/com.intel.tools.fdk.graphframework/src/com/intel/tools/fdk/graphframework/graph/factory/GraphFactory.java:66-68 | the argument-less overload is the two-argument one with no leaves and no groups |
| GraphFactory.CreateLeaf | java/com.intel.tools.fdk.graphframework/src/com/intel/tools/fdk/graphframework/graph/factory/GraphFactory.java:70-72 | the leaf has exactly the requested input and output counts, passed through unchanged |
| GraphFactory.CreateGroup | java/com.intel.tools.fdk.graphframework/src/com/intel/tools/fdk/graphframework/graph/factory/GraphFactory.java:74-77 | the group holds exactly the given leaves and sub-groups |
| GraphFactory.CreateGroupOfLeaves | java/com.intel.tools.fdk.graphframework/src/com/intel/tools/fdk/graphframework/graph/factory/GraphFactory.java:79-81 | the one-argument overload is the two-argument one with no sub-groups |
| GraphFactory.CreateEmptyGroup | java/com.intel.tools.fdk.graphframework/src/com/intel/tools/fdk/graphframework/graph/factory/GraphFactory.java:83-85 | the argument-less overload is the two-argument one with no leaves and no sub-groups |
| GraphFactory.CreateLink | java/com.intel.tools.fdk.graphframework/src/com/intel/tools/fdk/graphframework/graph/factory/GraphFactory.java:87-103 | the link is refused with the graph error exactly when the input or the output already holds a link; otherwise it binds exactly that output to that input, whatever nodes they belong to |
| GraphFactory.LinkedInputRefused | java/com.intel.tools.fdk.graphframework/src/com/intel/tools/fdk/graphframework/graph/factory/GraphFactory.java:99-101 | an input that already holds a link is refused |
| GraphFactory.LinkedOutputRefused | java/com.intel.tools.fdk.graphframework/src/com/intel/tools/fdk/graphframework/graph/factory/GraphFactory.java:99-101 | an output that already holds a link is refused |
| GraphFactory.SelfLinkAllowed | java/com.intel.tools.fdk.graphframework/src/com/intel/tools/fdk/graphframework/graph/factory/GraphFactory.java:88-103 | a free output and a free input of the same node can be linked to each other |
| GraphFactory.Connect | java/com.intel.tools.fdk.graphframework/src/com/intel/tools/fdk/graphframework/graph/factory/GraphFactory.java:98-103 | on success both ports hold the new link and every other port keeps what it held, so each port still holds at most one link and a consistent wiring stays consistent; on failure nothing changes |

## Behaviour of the source worth knowing

- Line 55 of the layout computer compares a point's y with the running **x**
  minimum. It is modelled as written. Base layouts are grid positions, with
  no negative coordinate. On those, the loop gives the true bounding box
  (`ScanAgreesOnGrid`). The scan runs over a child group's finished layout,
  and that layout stays on the grid whenever every level's base layout does
  (`LayoutOnGrid`): the passes only push right and down, and composition adds
  non-negative anchors to non-negative local coordinates. So on the grid a
  group's push width and height are exactly its bounding box's spans
  (`ChildSpansOnGrid`). With a negative x below a negative y, the height
  comes out too small (`ScanMissesNegativeY`).
- A push keeps strictly ordered entries in order. It does not keep ties with
  the base: an entry at exactly the base's x moves right past the base.
- A group with no direct leaves contributes only its own coordinate. So a
  leaf below a group that has no direct leaves gets no coordinate, and
  `getCoordinate` returns the origin for it (`LayoutDomain`,
  `LeaflessGroupIsOnePoint`, `NestedLeafBelowLeaflessGroupDropped`). This
  reads `Group.getLeaves()` as returning a group's direct leaves only;
  `NodeContainer` is not part of this model, and the model assumes that
  reading.
- The push passes keep distinct entries on distinct points: two different
  points differ strictly on one axis, and the passes keep strict order on
  both axes (`KeepsOrderKeepsDistinct`, `PushesKeepDistinct`). That is a
  statement about one level after the passes; the model claims nothing about
  coincident points after composition.

## Left out

- The internals of the base layout engine and of the graph compacter. They
  are not part of this model; their outputs are the `compact` parameter.
- `LayoutGenerator` and `IPresenterManager`: drawing and presenter plumbing
  with no computation to state.
- `PrecisionPoint` double arithmetic: coordinates are integer grid positions.
- Sharing of mutable point objects between maps: every map here is a value.
- The hash-map order of the final composition loop (line 61). Composition
  runs in the groups' sorted order instead, and no theorem ranges over other
  orders. When sibling groups share no node (`SiblingsDisjoint`) and the
  collaborators report exactly each level (`ExactTree`), the result does not
  depend on the order: `ComposePlacesChild` fixes every key a group writes,
  `LayoutDomain` fixes the key set, and `ComposeAll`'s frame clause fixes
  every remaining entry, none of them mentioning the order.
- The hash-map order in which a group's coordinates are scanned (line 51).
  It is a fixed but unspecified enumeration (`Enumerate`), which makes
  `Layout` a ghost function. Only the y minimum of line 55 depends on it.
- The `Comparable` order of groups behind the `TreeSet`: a container lists its
  groups already in that order.
- Object identity: leaves and groups carry a handle supplied by the caller.
  Ports are named by node handle and index.
- The constructors of `Graph`, `Group`, `Leaf` and `Link`, and any checks they
  make, are not part of this model. `Connect` records a new link on both of
  its ports; that is the port invariant the factory relies on.
- The casts to implementation classes in the factory, and the exception they
  raise for foreign implementations.
- The factory's `Group` and the layout's `Container` are separate models. The
  layout takes its container as given; no lemma relates a factory-built
  group to a container.
- Supplied: that placeholders are distinct per group, and leaf copies have
  distinct originals, is assumed of `GraphCompacter`, not derived. The model
  says nothing about a compacter that breaks it.
