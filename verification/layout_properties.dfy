/**
 Properties of the whole recursive layout: which nodes end up with a
 coordinate, where a group's nodes land relative to its anchor, and what a
 container without groups gets.
 */
module LayoutProperties {
  import opened Geometry
  import opened AutoGroupLayout

  // ---------------------------------------------------------------------------
  // Composition, one child at a time
  // ---------------------------------------------------------------------------

  lemma SeparatedTail(cs: seq<Child>)
    requires cs != [] && Separated(cs)
    ensures Separated(cs[1..])
  {
    forall j | 0 <= j < |cs[1..]|
      ensures cs[1..][j].anchor.Anchor? && forall key | key in Placement(cs[1..][j]) :: key.Node?
    {
      assert cs[1..][j] == cs[j + 1];
    }
  }

  lemma ComposeTail(m: Coordinates, cs: seq<Child>)
    requires cs != [] && AnchorsIn(m, cs) && DistinctAnchors(cs)
    ensures AnchorsIn(ComposeOne(m, cs[0]), cs[1..])
    ensures DistinctAnchors(cs[1..])
    ensures ComposeAll(m, cs) == ComposeAll(ComposeOne(m, cs[0]), cs[1..])
  {
    var m2 := ComposeOne(m, cs[0]);
    forall j | 0 <= j < |cs[1..]| ensures cs[1..][j].anchor in m2 {
      assert cs[1..][j] == cs[j + 1];
    }
    forall i, j | 0 <= i < j < |cs[1..]| ensures cs[1..][i].anchor != cs[1..][j].anchor {
      assert cs[1..][i] == cs[i + 1] && cs[1..][j] == cs[j + 1];
    }
  }

  /**
   After composition, a child's anchor is gone, and the child's coordinates sit
   at the anchor's position plus their local value (or the group itself sits
   at the anchor when it has no direct leaves), provided no two children write
   the same key and anchors are never written.
   */
  lemma {:induction false} ComposePlacesChild(m: Coordinates, cs: seq<Child>, i: nat)
    requires AnchorsIn(m, cs) && DistinctAnchors(cs)
    requires Separated(cs) && DisjointPlacements(cs)
    requires i < |cs|
    ensures cs[i].anchor !in ComposeAll(m, cs)
    ensures cs[i].hasLeaves ==> forall key | key in cs[i].local ::
      key in ComposeAll(m, cs) && ComposeAll(m, cs)[key] == Add(m[cs[i].anchor], cs[i].local[key])
    ensures !cs[i].hasLeaves ==>
      cs[i].groupKey in ComposeAll(m, cs) && ComposeAll(m, cs)[cs[i].groupKey] == m[cs[i].anchor]
    decreases |cs|
  {
    ComposeTail(m, cs);
    if i == 0 {
      ComposePlacesFirst(m, cs);
    } else {
      var m2 := ComposeOne(m, cs[0]);
      var rest := cs[1..];
      SeparatedTail(cs);
      assert rest[i - 1] == cs[i];
      assert cs[i].anchor !in Placement(cs[0]);
      assert m2[cs[i].anchor] == m[cs[i].anchor];
      DisjointTail(cs);
      ComposePlacesChild(m2, rest, i - 1);
    }
  }

  lemma DisjointTail(cs: seq<Child>)
    requires cs != [] && DisjointPlacements(cs)
    ensures DisjointPlacements(cs[1..])
  {
    var rest := cs[1..];
    forall a, b | 0 <= a < |rest| && 0 <= b < |rest| && a != b
      ensures Placement(rest[a]) !! Placement(rest[b])
    {
      assert rest[a] == cs[a + 1] && rest[b] == cs[b + 1];
    }
  }

  /** The first child's entries, once written, are never touched again. */
  lemma ComposePlacesFirst(m: Coordinates, cs: seq<Child>)
    requires AnchorsIn(m, cs) && DistinctAnchors(cs)
    requires Separated(cs) && DisjointPlacements(cs)
    requires cs != []
    ensures cs[0].anchor !in ComposeAll(m, cs)
    ensures forall key | key in Placement(cs[0]) ::
      key in ComposeAll(m, cs) && ComposeAll(m, cs)[key] == ComposeOne(m, cs[0])[key]
  {
    ComposeTail(m, cs);
    PlacementKeysSplit(cs);
    var m2 := ComposeOne(m, cs[0]);
    var rest := cs[1..];
    forall key, j | key in Placement(cs[0]) && 0 <= j < |rest|
      ensures key !in Placement(rest[j]) && key != rest[j].anchor
    {
      assert rest[j] == cs[j + 1];
    }
    forall j | 0 <= j < |rest| ensures cs[0].anchor !in Placement(rest[j]) {
      assert rest[j] == cs[j + 1];
    }
  }

  // ---------------------------------------------------------------------------
  // Which nodes get a coordinate
  // ---------------------------------------------------------------------------

  /**
   The keys a layout of `c` holds: the direct leaves of `c`, and for every
   child group either what the group's own layout holds (when the group has
   direct leaves) or the group itself.
   */
  ghost function Domain(c: Container): set<Key>
    decreases c, 1
  {
    LeafKeys(c.leaves) + FootprintsOf(c.groups)
  }

  function LeafKeys(leaves: set<NodeId>): set<Key>
  {
    set l | l in leaves :: Node(l)
  }

  /** Everything a sequence of child groups contributes. */
  ghost function FootprintsOf(gs: seq<Container>): set<Key>
    decreases gs, 0
  {
    set i, key | 0 <= i < |gs| && key in Footprint(gs[i]) :: key
  }

  /** What a child group contributes to its parent's layout. */
  ghost function Footprint(g: Container): set<Key>
    decreases g, 2
  {
    if g.leaves != {} then Domain(g) else {Node(g.id)}
  }

  /** Every node of the subtree rooted at `c`, groups included. */
  ghost function Ids(c: Container): set<NodeId>
    decreases c
  {
    {c.id} + c.leaves + (set i, n | 0 <= i < |c.groups| && n in Ids(c.groups[i]) :: n)
  }

  /** No node belongs to two sibling groups. */
  ghost predicate SiblingsDisjoint(c: Container)
  {
    forall i, j | 0 <= i < |c.groups| && 0 <= j < |c.groups| && i != j :: Ids(c.groups[i]) !! Ids(c.groups[j])
  }

  /**
   The collaborators report exactly this level: the placeholders are those of
   the child groups, and the leaf copies are copies of exactly the direct leaves.
   */
  ghost predicate Exact(c: Container, k: Compaction)
  {
    && (forall p | p in k.placeholders ::
          exists i | 0 <= i < |c.groups| :: c.groups[i].id in k.placeholderOf && k.placeholderOf[c.groups[i].id] == p)
    && (forall n | n in k.layout && n !in k.placeholders && n in k.originalOf :: k.originalOf[n] in c.leaves)
    && (forall l | l in c.leaves ::
          exists n | n in k.layout && n !in k.placeholders && n in k.originalOf :: k.originalOf[n] == l)
  }

  ghost predicate ExactTree(c: Container, compact: Container -> Compaction)
    decreases c
  {
    && Exact(c, compact(c))
    && forall i | 0 <= i < |c.groups| :: ExactTree(c.groups[i], compact)
  }

  /** A layout only ever holds real nodes, all of them from the subtree. */
  lemma {:induction false} DomainWithinIds(c: Container)
    ensures forall key | key in Domain(c) :: key.Node? && key.id in Ids(c)
    ensures forall key | key in Footprint(c) :: key.Node? && key.id in Ids(c)
    decreases c
  {
    forall key | key in Domain(c) ensures key.Node? && key.id in Ids(c) {
      if key !in LeafKeys(c.leaves) {
        assert key in FootprintsOf(c.groups);
        var i :| 0 <= i < |c.groups| && key in Footprint(c.groups[i]);
        DomainWithinIds(c.groups[i]);
        assert key.id in Ids(c.groups[i]);
      }
    }
  }

  lemma DealiasKeys(c: Container, k: Compaction)
    requires Supplied(c, k) && Exact(c, k)
    ensures Dealias(k).Keys ==
      (set p | p in k.placeholders :: Anchor(p)) + LeafKeys(c.leaves)
  {
    DealiasHasAll(c, k);
    DealiasHasOnly(c, k);
  }

  /** Every placeholder and every direct leaf has an entry in the de-aliased map. */
  lemma DealiasHasAll(c: Container, k: Compaction)
    requires Supplied(c, k) && Exact(c, k)
    ensures forall p | p in k.placeholders :: Anchor(p) in Dealias(k)
    ensures forall l | l in c.leaves :: Node(l) in Dealias(k)
  {
    var r := Dealias(k);
    forall p | p in k.placeholders ensures Anchor(p) in r {
      var i :| 0 <= i < |c.groups| && c.groups[i].id in k.placeholderOf && k.placeholderOf[c.groups[i].id] == p;
    }
    forall l | l in c.leaves ensures Node(l) in r {
      var n :| n in k.layout && n !in k.placeholders && n in k.originalOf && k.originalOf[n] == l;
    }
  }

  /** The de-aliased map holds placeholders and direct leaves and nothing else. */
  lemma DealiasHasOnly(c: Container, k: Compaction)
    requires Supplied(c, k) && Exact(c, k)
    ensures forall key | key in Dealias(k) ::
      (key.Anchor? && key.placeholder in k.placeholders) || (key.Node? && key.id in c.leaves)
  {
    var r := Dealias(k);
    forall key | key in r && key.Node? ensures key.id in c.leaves {
      var n :| n in k.layout && n !in k.placeholders && k.originalOf[n] == key.id;
    }
  }

  lemma ChildPlacement(c: Container, compact: Container -> Compaction, i: nat)
    requires SuppliedTree(c, compact) && ExactTree(c, compact) && i < |c.groups|
    ensures Placement(Children(c, compact)[i]) == Footprint(c.groups[i])
    ensures Children(c, compact)[i].anchor.Anchor?
    ensures forall key | key in Placement(Children(c, compact)[i]) :: key.Node?
    decreases c, 0
  {
    var g := c.groups[i];
    var ch := Children(c, compact)[i];
    assert ch.local == Layout(g, compact) && ch.groupKey == Node(g.id) && (ch.hasLeaves <==> g.leaves != {});
    assert SuppliedTree(g, compact) && ExactTree(g, compact);
    DomainWithinIds(g);
    if g.leaves != {} {
      LayoutDomain(g, compact);
      assert Placement(ch) == Layout(g, compact).Keys;
    }
  }

  lemma ChildrenSeparated(c: Container, compact: Container -> Compaction)
    requires SuppliedTree(c, compact) && ExactTree(c, compact)
    ensures Separated(Children(c, compact))
    ensures forall i | 0 <= i < |c.groups| :: Placement(Children(c, compact)[i]) == Footprint(c.groups[i])
    decreases c, 1
  {
    forall i | 0 <= i < |c.groups|
      ensures Placement(Children(c, compact)[i]) == Footprint(c.groups[i])
      ensures Children(c, compact)[i].anchor.Anchor?
      ensures forall key | key in Placement(Children(c, compact)[i]) :: key.Node?
    {
      ChildPlacement(c, compact, i);
    }
  }

  lemma ChildrenAnchorKeys(c: Container, compact: Container -> Compaction)
    requires SuppliedTree(c, compact) && ExactTree(c, compact)
    ensures AnchorKeys(Children(c, compact)) == set p | p in compact(c).placeholders :: Anchor(p)
  {
    var k := compact(c);
    var cs := Children(c, compact);
    var anchors := set p | p in k.placeholders :: Anchor(p);
    assert Exact(c, k);
    forall key | key in anchors ensures key in AnchorKeys(cs) {
      var i :| 0 <= i < |c.groups| && c.groups[i].id in k.placeholderOf && k.placeholderOf[c.groups[i].id] == key.placeholder;
      assert cs[i].anchor == key;
    }
    forall key | key in AnchorKeys(cs) ensures key in anchors {
      var i :| 0 <= i < |cs| && key == cs[i].anchor;
    }
  }

  lemma PlacementKeysMatch(cs: seq<Child>, gs: seq<Container>)
    requires |cs| == |gs|
    requires forall i | 0 <= i < |cs| :: Placement(cs[i]) == Footprint(gs[i])
    ensures PlacementKeys(cs) == FootprintsOf(gs)
  {
    forall key | key in PlacementKeys(cs) ensures key in FootprintsOf(gs) {
      var i :| 0 <= i < |cs| && key in Placement(cs[i]);
      assert key in Footprint(gs[i]);
    }
    forall key | key in FootprintsOf(gs) ensures key in PlacementKeys(cs) {
      var i :| 0 <= i < |gs| && key in Footprint(gs[i]);
      assert key in Placement(cs[i]);
    }
  }

  lemma RemoveThenAdd(d: set<Key>, x: set<Key>, l: set<Key>, p: set<Key>)
    requires d == x + l
    requires forall key | key in x :: key.Anchor?
    requires forall key | key in l :: key.Node?
    ensures (d - x) + p == l + p
  {
  }

  /**
   Exactly the nodes of `Domain(c)` get a coordinate: every direct leaf, and
   recursively the nodes of every child group that has direct leaves; a child
   group without direct leaves gets a coordinate for itself only, and nothing
   below it is copied up. No placeholder survives.
   */
  lemma {:induction false} LayoutDomain(c: Container, compact: Container -> Compaction)
    requires SuppliedTree(c, compact) && ExactTree(c, compact)
    ensures Layout(c, compact).Keys == Domain(c)
    decreases c, 3
  {
    if c.groups == [] {
      FlatLayoutDomain(c, compact);
    } else {
      NestedLayoutDomain(c, compact);
    }
  }

  lemma FlatLayoutDomain(c: Container, compact: Container -> Compaction)
    requires SuppliedTree(c, compact) && ExactTree(c, compact) && c.groups == []
    ensures Layout(c, compact).Keys == Domain(c)
  {
    var k := compact(c);
    DealiasKeys(c, k);
    assert k.placeholders == {};
    assert FootprintsOf(c.groups) == {};
    assert Layout(c, compact) == Dealias(k);
  }

  lemma NestedLayoutDomain(c: Container, compact: Container -> Compaction)
    requires SuppliedTree(c, compact) && ExactTree(c, compact) && c.groups != []
    ensures Layout(c, compact).Keys == Domain(c)
    decreases c, 2
  {
    var k := compact(c);
    var cs := Children(c, compact);
    var placed := Placed(c, compact);
    ChildrenAnchored(c, compact);
    assert Layout(c, compact) == ComposeAll(placed, cs);
    ChildrenSeparated(c, compact);
    assert Layout(c, compact).Keys == (placed.Keys - AnchorKeys(cs)) + PlacementKeys(cs);
    DealiasKeys(c, k);
    ChildrenAnchorKeys(c, compact);
    PlacementKeysMatch(cs, c.groups);
    RemoveThenAdd(placed.Keys, AnchorKeys(cs), LeafKeys(c.leaves), PlacementKeys(cs));
  }

  /** A group with neither leaves nor groups lays nothing out. */
  lemma EmptyGroupLayout(g: Container, compact: Container -> Compaction)
    requires SuppliedTree(g, compact) && ExactTree(g, compact)
    requires g.leaves == {} && g.groups == []
    ensures Layout(g, compact) == map[]
  {
    LayoutDomain(g, compact);
    assert Domain(g) == {};
  }

  /**
   A group without direct leaves stands in its parent's layout as one point:
   the group's own node is there, and no other node of its subtree is.
   */
  lemma LeaflessGroupIsOnePoint(c: Container, compact: Container -> Compaction, i: nat)
    requires SuppliedTree(c, compact) && ExactTree(c, compact) && SiblingsDisjoint(c)
    requires i < |c.groups| && c.groups[i].leaves == {}
    requires c.leaves !! Ids(c.groups[i])
    ensures Node(c.groups[i].id) in Layout(c, compact)
    ensures forall key | key in Layout(c, compact) && key.Node? && key.id in Ids(c.groups[i]) ::
      key == Node(c.groups[i].id)
  {
    LayoutDomain(c, compact);
    LeaflessGroupInDomain(c, i);
  }

  /** `LeaflessGroupIsOnePoint` on the set of keys a layout holds. */
  lemma LeaflessGroupInDomain(c: Container, i: nat)
    requires SiblingsDisjoint(c) && i < |c.groups| && c.groups[i].leaves == {}
    requires c.leaves !! Ids(c.groups[i])
    ensures Node(c.groups[i].id) in Domain(c)
    ensures forall key | key in Domain(c) && key.Node? && key.id in Ids(c.groups[i]) :: key == Node(c.groups[i].id)
  {
    var g := c.groups[i];
    assert Footprint(g) == {Node(g.id)};
    assert Node(g.id) in FootprintsOf(c.groups);
    forall key | key in Domain(c) && key.Node? && key.id in Ids(g) ensures key == Node(g.id) {
      if key in LeafKeys(c.leaves) {
        assert false;
      }
      assert key in FootprintsOf(c.groups);
      var j :| 0 <= j < |c.groups| && key in Footprint(c.groups[j]);
      DomainWithinIds(c.groups[j]);
      if j != i {
        assert false;
      }
    }
  }

  /**
   A leaf nested below a group that has no direct leaves of its own gets no
   coordinate: here leaf 3 sits in group 2, inside group 1, which has no
   direct leaves, so the top-level layout holds group 1 and nothing else.
   */
  lemma NestedLeafBelowLeaflessGroupDropped()
    ensures Domain(Container(0, {}, [Container(1, {}, [Container(2, {3}, [])])])) == {Node(1)}
  {
    var g2 := Container(2, {3}, []);
    var g1 := Container(1, {}, [g2]);
    var top := Container(0, {}, [g1]);
    assert Footprint(g1) == {Node(1)};
    assert LeafKeys(top.leaves) == {};
    assert FootprintsOf(top.groups) == {Node(1)} by {
      assert top.groups[0] == g1;
    }
  }

  // ---------------------------------------------------------------------------
  // Where a group's nodes land
  // ---------------------------------------------------------------------------

  /** The anchor key of the `i`th child group of `c`. */
  ghost function AnchorOf(c: Container, compact: Container -> Compaction, i: nat): Key
    requires SuppliedTree(c, compact) && i < |c.groups|
  {
    Anchor(compact(c).placeholderOf[c.groups[i].id])
  }

  lemma ChildrenDisjoint(c: Container, compact: Container -> Compaction)
    requires SuppliedTree(c, compact) && ExactTree(c, compact) && SiblingsDisjoint(c)
    ensures DisjointPlacements(Children(c, compact))
  {
    var cs := Children(c, compact);
    ChildrenSeparated(c, compact);
    forall i, j | 0 <= i < |cs| && 0 <= j < |cs| && i != j
      ensures Placement(cs[i]) !! Placement(cs[j])
    {
      DomainWithinIds(c.groups[i]);
      DomainWithinIds(c.groups[j]);
      forall key | key in Placement(cs[i]) ensures key !in Placement(cs[j]) {
        assert key.id in Ids(c.groups[i]);
        assert key.id !in Ids(c.groups[j]);
      }
    }
  }

  /**
   After composition, for every child group: its anchor is gone from the
   layout; when it has direct leaves, every node of its own layout sits at the
   anchor's pushed position plus the node's local coordinate; otherwise the
   group itself sits at the anchor's pushed position.
   */
  lemma LayoutPlacesGroup(c: Container, compact: Container -> Compaction, i: nat)
    requires SuppliedTree(c, compact) && ExactTree(c, compact) && SiblingsDisjoint(c)
    requires i < |c.groups|
    ensures AnchorOf(c, compact, i) in Placed(c, compact)
    ensures AnchorOf(c, compact, i) !in Layout(c, compact)
    ensures c.groups[i].leaves != {} ==>
      forall key | key in Layout(c.groups[i], compact) ::
        && key in Layout(c, compact)
        && Layout(c, compact)[key] ==
             Add(Placed(c, compact)[AnchorOf(c, compact, i)], Layout(c.groups[i], compact)[key])
    ensures c.groups[i].leaves == {} ==>
      && Node(c.groups[i].id) in Layout(c, compact)
      && Layout(c, compact)[Node(c.groups[i].id)] == Placed(c, compact)[AnchorOf(c, compact, i)]
  {
    var cs := Children(c, compact);
    ChildrenAnchored(c, compact);
    ChildrenSeparated(c, compact);
    ChildrenDisjoint(c, compact);
    assert cs[i].anchor == AnchorOf(c, compact, i);
    ComposePlacesChild(Placed(c, compact), cs, i);
  }

  /**
   A group's internal arrangement survives composition: the difference between
   the coordinates of two of its nodes is the same in the parent's layout as in
   the group's own layout.
   */
  lemma GroupShapePreserved(c: Container, compact: Container -> Compaction, i: nat, a: Key, b: Key)
    requires SuppliedTree(c, compact) && ExactTree(c, compact) && SiblingsDisjoint(c)
    requires i < |c.groups| && c.groups[i].leaves != {}
    requires a in Layout(c.groups[i], compact) && b in Layout(c.groups[i], compact)
    ensures a in Layout(c, compact) && b in Layout(c, compact)
    ensures Layout(c, compact)[a].x - Layout(c, compact)[b].x
         == Layout(c.groups[i], compact)[a].x - Layout(c.groups[i], compact)[b].x
    ensures Layout(c, compact)[a].y - Layout(c, compact)[b].y
         == Layout(c.groups[i], compact)[a].y - Layout(c.groups[i], compact)[b].y
  {
    LayoutPlacesGroup(c, compact, i);
  }

  /**
   A container without groups keeps the compacted layout as it is, each leaf
   copy's coordinate recorded under the leaf it copies.
   */
  lemma LayoutWithoutGroups(c: Container, compact: Container -> Compaction)
    requires SuppliedTree(c, compact) && c.groups == []
    ensures Layout(c, compact) == Dealias(compact(c))
    ensures forall n | n in compact(c).layout && n !in compact(c).placeholders ::
      Layout(c, compact)[Node(compact(c).originalOf[n])] == compact(c).layout[n]
  {
  }

  /**
   The push passes only ever move entries right or down, and entries strictly
   ordered on an axis in the compacted layout stay strictly ordered on it.
   */
  lemma PushesOnlyGrow(c: Container, compact: Container -> Compaction)
    requires SuppliedTree(c, compact)
    ensures KeepsOrder(Dealias(compact(c)), Placed(c, compact))
  {
    ChildrenAnchored(c, compact);
    PushAllKeepsOrder(Dealias(compact(c)), Children(c, compact));
  }

  /**
   The push passes make room for every child group: a node at or right of
   (at or below) the group's placeholder in the compacted layout ends up at
   least the group's scanned width (height) right of (below) it.
   */
  lemma PushesMakeRoom(c: Container, compact: Container -> Compaction, i: nat)
    requires SuppliedTree(c, compact) && i < |c.groups|
    ensures Children(c, compact)[i].anchor == AnchorOf(c, compact, i)
    ensures MakesRoom(Dealias(compact(c)), Placed(c, compact), AnchorOf(c, compact, i),
      Children(c, compact)[i].width, Children(c, compact)[i].height)
  {
    ChildrenAnchored(c, compact);
    PushAllMakesRoomForNodes(Dealias(compact(c)), Children(c, compact), i);
  }

  /**
   When the compacted layout puts no two entries on one point, neither do the
   push passes: after them no two entries of the level share a coordinate.
   */
  lemma PushesKeepDistinct(c: Container, compact: Container -> Compaction)
    requires SuppliedTree(c, compact) && Injective(Dealias(compact(c)))
    ensures Injective(Placed(c, compact))
  {
    PushesOnlyGrow(c, compact);
    KeepsOrderKeepsDistinct(Dealias(compact(c)), Placed(c, compact));
  }

  /** Looking a node up never fails: a node without a coordinate is at the origin. */
  lemma UnknownNodeAtOrigin(c: Container, compact: Container -> Compaction, id: NodeId)
    requires SuppliedTree(c, compact) && ExactTree(c, compact)
    requires Node(id) !in Domain(c)
    ensures GetCoordinate(Layout(c, compact), Node(id)) == Origin
  {
    LayoutDomain(c, compact);
  }

  // ---------------------------------------------------------------------------
  // Layouts on the grid
  // ---------------------------------------------------------------------------

  /** The base layout engine places every node of every level at non-negative coordinates. */
  ghost predicate GridTree(c: Container, compact: Container -> Compaction)
    decreases c
  {
    && (forall n | n in compact(c).layout :: compact(c).layout[n].x >= 0 && compact(c).layout[n].y >= 0)
    && forall i | 0 <= i < |c.groups| :: GridTree(c.groups[i], compact)
  }

  lemma DealiasOnGrid(k: Compaction)
    requires DealiasDefined(k)
    requires forall n | n in k.layout :: k.layout[n].x >= 0 && k.layout[n].y >= 0
    ensures OnGridMap(Dealias(k))
  {
    var r := Dealias(k);
    forall key | key in r ensures r[key].x >= 0 && r[key].y >= 0 {
      if key.Node? {
        var n :| n in k.layout && n !in k.placeholders && k.originalOf[n] == key.id;
        assert r[Node(k.originalOf[n])] == k.layout[n];
      }
    }
  }

  lemma ComposeOneOnGrid(m: Coordinates, ch: Child)
    requires ch.anchor in m && OnGridMap(m) && OnGridMap(ch.local)
    ensures OnGridMap(ComposeOne(m, ch))
  {
    var r := ComposeOne(m, ch);
    forall key | key in r ensures r[key].x >= 0 && r[key].y >= 0 {
      if key !in Placement(ch) {
        assert key in m;
      } else if ch.hasLeaves {
        assert r[key] == Add(m[ch.anchor], ch.local[key]);
      }
    }
  }

  /** Composing on-grid children into an on-grid level stays on the grid. */
  lemma {:induction false} ComposeAllOnGrid(m: Coordinates, cs: seq<Child>)
    requires AnchorsIn(m, cs) && DistinctAnchors(cs) && OnGridMap(m)
    requires forall i | 0 <= i < |cs| :: OnGridMap(cs[i].local)
    ensures OnGridMap(ComposeAll(m, cs))
    decreases |cs|
  {
    if cs != [] {
      ComposeTail(m, cs);
      ComposeOneOnGrid(m, cs[0]);
      forall i | 0 <= i < |cs[1..]| ensures OnGridMap(cs[1..][i].local) {
        assert cs[1..][i] == cs[i + 1];
      }
      ComposeAllOnGrid(ComposeOne(m, cs[0]), cs[1..]);
    }
  }

  /**
   When the base layout engine stays on the grid at every level, so does the
   finished layout: the passes only push right and down, and composition adds
   non-negative anchors to non-negative local coordinates.
   */
  lemma {:induction false} LayoutOnGrid(c: Container, compact: Container -> Compaction)
    requires SuppliedTree(c, compact) && GridTree(c, compact)
    ensures OnGridMap(Layout(c, compact))
    decreases c
  {
    DealiasOnGrid(compact(c));
    if c.groups != [] {
      var cs := Children(c, compact);
      ChildrenAnchored(c, compact);
      PushesOnlyGrow(c, compact);
      KeepsOrderOnGrid(Dealias(compact(c)), Placed(c, compact));
      forall i | 0 <= i < |cs| ensures OnGridMap(cs[i].local) {
        assert cs[i].local == Layout(c.groups[i], compact);
        LayoutOnGrid(c.groups[i], compact);
      }
      ComposeAllOnGrid(Placed(c, compact), cs);
    }
  }

  /**
   On the grid, the room a child group asks for is exactly the width and
   height of the bounding box of its finished layout.
   */
  lemma ChildSpansOnGrid(c: Container, compact: Container -> Compaction, i: nat)
    requires SuppliedTree(c, compact) && GridTree(c, compact) && i < |c.groups|
    ensures var e := IntendedExtent(Enumerate(Layout(c.groups[i], compact)));
      && Children(c, compact)[i].width == e.xMax - e.xMin
      && Children(c, compact)[i].height == e.yMax - e.yMin
  {
    var g := c.groups[i];
    LayoutOnGrid(g, compact);
    ChildRoom(g, compact(c), Layout(g, compact));
  }
}
