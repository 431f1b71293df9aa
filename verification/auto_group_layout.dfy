/**
 The group-aware layout computer: every child group of a container is
 replaced by a placeholder leaf, the compacted graph is laid out, each group
 is laid out on its own, the neighbours of every group's placeholder are
 pushed right and down to make room for it, and finally each placeholder
 ("anchor") is replaced by the group's own coordinates shifted by the anchor.

 Node identities are handles. A placeholder lives in a separate key space
 (`Anchor`) so that it can never be confused with a real leaf or group, just
 as the placeholder objects of the compacter are distinct from every node.
 */
module AutoGroupLayout {
  import opened Geometry

  type NodeId = nat

  /** A node of a compacted graph (a leaf copy or a group placeholder). */
  type CompactId = nat

  datatype Key = Node(id: NodeId) | Anchor(placeholder: CompactId)

  type Coordinates = map<Key, Point>

  /** Coordinate of a node, or the origin for a node that was never laid out. */
  function GetCoordinate(m: Coordinates, node: Key): (p: Point)
    ensures node in m ==> p == m[node]
    ensures node !in m ==> p == Origin
  {
    if node in m then m[node] else Origin
  }

  // ---------------------------------------------------------------------------
  // Push passes
  // ---------------------------------------------------------------------------

  /**
   Moves right by `offset` every entry other than `base` whose x is at least
   the x of `base`. Nothing else changes: no key appears or disappears, no y
   moves, `base` and every entry left of it stay where they are.
   */
  function PushLeft(m: Coordinates, base: Key, offset: int): (r: Coordinates)
    requires base in m
    ensures r.Keys == m.Keys
    ensures r[base] == m[base]
    ensures forall k | k in m :: r[k].y == m[k].y
    ensures forall k | k in m && m[k].x < m[base].x :: r[k] == m[k]
    ensures forall k | k in m && k != base && m[k].x >= m[base].x :: r[k].x == m[k].x + offset
    ensures offset >= 0 ==> forall k | k in m :: r[k].x >= m[k].x
    ensures offset >= 0 ==> forall a, b | a in m && b in m && m[a].x < m[b].x :: r[a].x < r[b].x
    ensures offset >= 0 ==> forall a, b | a in m && b in m && a != base && b != base && m[a].x <= m[b].x :: r[a].x <= r[b].x
  {
    var baseX := m[base].x;
    map k | k in m :: if k != base && m[k].x >= baseX then Point(m[k].x + offset, m[k].y) else m[k]
  }

  /** The same as `PushLeft` on the vertical axis. */
  function PushDown(m: Coordinates, base: Key, offset: int): (r: Coordinates)
    requires base in m
    ensures r.Keys == m.Keys
    ensures r[base] == m[base]
    ensures forall k | k in m :: r[k].x == m[k].x
    ensures forall k | k in m && m[k].y < m[base].y :: r[k] == m[k]
    ensures forall k | k in m && k != base && m[k].y >= m[base].y :: r[k].y == m[k].y + offset
    ensures offset >= 0 ==> forall k | k in m :: r[k].y >= m[k].y
    ensures offset >= 0 ==> forall a, b | a in m && b in m && m[a].y < m[b].y :: r[a].y < r[b].y
    ensures offset >= 0 ==> forall a, b | a in m && b in m && a != base && b != base && m[a].y <= m[b].y :: r[a].y <= r[b].y
  {
    var baseY := m[base].y;
    map k | k in m :: if k != base && m[k].y >= baseY then Point(m[k].x, m[k].y + offset) else m[k]
  }

  // ---------------------------------------------------------------------------
  // Containers and the collaborators' output
  // ---------------------------------------------------------------------------

  /**
   A graph or a group: its direct leaves and its direct child groups. The
   child groups are listed in the fixed total order in which the layout
   processes them.
   */
  datatype Container = Container(id: NodeId, leaves: set<NodeId>, groups: seq<Container>)

  /**
   What the compacter and the base layout engine supply for one container:
   the coordinates of the compacted graph's nodes, which of those nodes are
   group placeholders, the original node of every other compacted node, and
   the placeholder standing for each child group.
   */
  datatype Compaction = Compaction(
    layout: map<CompactId, Point>,
    placeholders: set<CompactId>,
    originalOf: map<CompactId, NodeId>,
    placeholderOf: map<NodeId, CompactId>)

  /** Every compacted leaf copy has a distinct original. */
  predicate DealiasDefined(k: Compaction)
  {
    && (forall n | n in k.layout && n !in k.placeholders :: n in k.originalOf)
    && (forall n, n' | n in k.layout && n !in k.placeholders && n' in k.layout && n' !in k.placeholders && n != n' ::
          k.originalOf[n] != k.originalOf[n'])
  }

  /**
   What the layout relies on from its collaborators at one level: de-aliasing
   is defined, and every child group has its own placeholder, which the base
   layout placed and which is recorded as a placeholder.
   */
  predicate Supplied(c: Container, k: Compaction)
  {
    && DealiasDefined(k)
    && (forall i | 0 <= i < |c.groups| ::
          && c.groups[i].id in k.placeholderOf
          && k.placeholderOf[c.groups[i].id] in k.layout
          && k.placeholderOf[c.groups[i].id] in k.placeholders)
    && (forall i, j | 0 <= i < j < |c.groups| ::
          k.placeholderOf[c.groups[i].id] != k.placeholderOf[c.groups[j].id])
  }

  /** `Supplied` at every level of the group tree. */
  ghost predicate SuppliedTree(c: Container, compact: Container -> Compaction)
    decreases c
  {
    && Supplied(c, compact(c))
    && forall i | 0 <= i < |c.groups| :: SuppliedTree(c.groups[i], compact)
  }

  /**
   The compacted layout with every leaf copy recorded under its original node
   and every placeholder kept under its own anchor key.
   */
  function Dealias(k: Compaction): (r: Coordinates)
    requires DealiasDefined(k)
    ensures forall n | n in k.layout && n in k.placeholders :: Anchor(n) in r && r[Anchor(n)] == k.layout[n]
    ensures forall n | n in k.layout && n !in k.placeholders ::
      Node(k.originalOf[n]) in r && r[Node(k.originalOf[n])] == k.layout[n]
    ensures forall key | key in r && key.Anchor? :: key.placeholder in k.layout && key.placeholder in k.placeholders
    ensures forall key | key in r && key.Node? ::
      exists n | n in k.layout && n !in k.placeholders :: k.originalOf[n] == key.id
  {
    var anchors := map n | n in k.layout && n in k.placeholders :: Anchor(n) := k.layout[n];
    var nodes := map n | n in k.layout && n !in k.placeholders :: Node(k.originalOf[n]) := k.layout[n];
    anchors + nodes
  }

  // ---------------------------------------------------------------------------
  // Composition
  // ---------------------------------------------------------------------------

  /**
   One child group as seen from its parent: its anchor key, its own key, whether
   it has direct leaves, its coordinates in its own space, and the room it needs.
   */
  datatype Child = Child(anchor: Key, groupKey: Key, hasLeaves: bool, local: Coordinates, width: nat, height: nat)

  /** The keys composition writes for a child. */
  function Placement(ch: Child): set<Key>
  {
    if ch.hasLeaves then ch.local.Keys else {ch.groupKey}
  }

  function AnchorKeys(cs: seq<Child>): set<Key>
  {
    set i | 0 <= i < |cs| :: cs[i].anchor
  }

  function PlacementKeys(cs: seq<Child>): set<Key>
  {
    set i, key | 0 <= i < |cs| && key in Placement(cs[i]) :: key
  }

  predicate AnchorsIn(m: Coordinates, cs: seq<Child>)
  {
    forall i | 0 <= i < |cs| :: cs[i].anchor in m
  }

  predicate DistinctAnchors(cs: seq<Child>)
  {
    forall i, j | 0 <= i < j < |cs| :: cs[i].anchor != cs[j].anchor
  }

  /** `key` is the anchor of none of the children. */
  predicate Unanchored(key: Key, cs: seq<Child>)
  {
    forall j | 0 <= j < |cs| :: cs[j].anchor != key
  }

  lemma UnanchoredParts(key: Key, cs: seq<Child>, i: nat)
    requires Unanchored(key, cs) && i <= |cs|
    ensures Unanchored(key, cs[..i]) && Unanchored(key, cs[i..])
    ensures i < |cs| ==> cs[i].anchor != key
  {
    forall j | 0 <= j < i ensures cs[..i][j].anchor != key {
      assert cs[..i][j] == cs[j];
    }
    forall j | 0 <= j < |cs| - i ensures cs[i..][j].anchor != key {
      assert cs[i..][j] == cs[i + j];
    }
  }

  /** Anchors are placeholder keys and everything composition writes is a node key. */
  predicate Separated(cs: seq<Child>)
  {
    forall i | 0 <= i < |cs| :: cs[i].anchor.Anchor? && forall key | key in Placement(cs[i]) :: key.Node?
  }

  /** No two children write the same key. */
  predicate DisjointPlacements(cs: seq<Child>)
  {
    forall i, j | 0 <= i < |cs| && 0 <= j < |cs| && i != j :: Placement(cs[i]) !! Placement(cs[j])
  }

  lemma PlacementKeysSplit(cs: seq<Child>)
    requires cs != []
    ensures PlacementKeys(cs) == Placement(cs[0]) + PlacementKeys(cs[1..])
    ensures AnchorKeys(cs) == {cs[0].anchor} + AnchorKeys(cs[1..])
  {
    forall key | key in PlacementKeys(cs)
      ensures key in Placement(cs[0]) + PlacementKeys(cs[1..])
    {
      var i :| 0 <= i < |cs| && key in Placement(cs[i]);
      if i > 0 {
        assert cs[1..][i - 1] == cs[i];
      }
    }
    forall key | key in PlacementKeys(cs[1..])
      ensures key in PlacementKeys(cs)
    {
      var i :| 0 <= i < |cs[1..]| && key in Placement(cs[1..][i]);
      assert cs[1..][i] == cs[i + 1];
    }
    forall key | key in AnchorKeys(cs)
      ensures key in {cs[0].anchor} + AnchorKeys(cs[1..])
    {
      var i :| 0 <= i < |cs| && key == cs[i].anchor;
      if i > 0 {
        assert cs[1..][i - 1] == cs[i];
      }
    }
    forall key | key in AnchorKeys(cs[1..])
      ensures key in AnchorKeys(cs)
    {
      var i :| 0 <= i < |cs[1..]| && key == cs[1..][i].anchor;
      assert cs[1..][i] == cs[i + 1];
    }
  }

  /** A child's coordinates moved into the parent's space at `anchor`. */
  function Shift(local: Coordinates, anchor: Point): (r: Coordinates)
    ensures r.Keys == local.Keys
  {
    map key | key in local :: Add(anchor, local[key])
  }

  /**
   Replaces the anchor entry of one child by the child's coordinates shifted by
   the anchor's position, or, for a child without direct leaves, by the group
   itself at that position. Every other entry is kept.
   */
  function ComposeOne(m: Coordinates, ch: Child): (r: Coordinates)
    requires ch.anchor in m
    ensures r.Keys == (m.Keys - {ch.anchor}) + Placement(ch)
    ensures ch.hasLeaves ==> forall key | key in ch.local :: r[key] == Add(m[ch.anchor], ch.local[key])
    ensures !ch.hasLeaves ==> r[ch.groupKey] == m[ch.anchor]
    ensures forall key | key in m && key != ch.anchor && key !in Placement(ch) :: r[key] == m[key]
  {
    var a := m[ch.anchor];
    var m1 := m - {ch.anchor};
    if ch.hasLeaves then m1 + Shift(ch.local, a) else m1[ch.groupKey := a]
  }

  /**
   Replaces, child by child, the anchor entry by the child's coordinates shifted
   by the anchor, or by the group itself at the anchor when it has no direct
   leaves. Entries that are neither anchors nor written by a child keep their
   value; when anchors and written keys are of different kinds, the key set is
   exactly the old one minus the anchors plus every written key.
   */
  function ComposeAll(m: Coordinates, cs: seq<Child>): (r: Coordinates)
    requires AnchorsIn(m, cs)
    requires DistinctAnchors(cs)
    ensures forall key | key in r :: key in m || key in PlacementKeys(cs)
    ensures forall key | key in m && key !in AnchorKeys(cs) && key !in PlacementKeys(cs) ::
      key in r && r[key] == m[key]
    ensures Separated(cs) ==> r.Keys == (m.Keys - AnchorKeys(cs)) + PlacementKeys(cs)
    decreases |cs|
  {
    if cs == [] then m
    else
      var ch := cs[0];
      var m2 := ComposeOne(m, ch);
      assert AnchorsIn(m2, cs[1..]) by {
        forall j | 0 <= j < |cs[1..]| ensures cs[1..][j].anchor in m2 {
          assert cs[1..][j] == cs[j + 1];
        }
      }
      assert DistinctAnchors(cs[1..]) by {
        forall i, j | 0 <= i < j < |cs[1..]| ensures cs[1..][i].anchor != cs[1..][j].anchor {
          assert cs[1..][i] == cs[i + 1] && cs[1..][j] == cs[j + 1];
        }
      }
      PlacementKeysSplit(cs);
      var r := ComposeAll(m2, cs[1..]);
      assert Separated(cs) ==> Separated(cs[1..]) && ch.anchor.Anchor? by {
        if Separated(cs) {
          forall j | 0 <= j < |cs[1..]|
            ensures cs[1..][j].anchor.Anchor? && forall key | key in Placement(cs[1..][j]) :: key.Node?
          {
            assert cs[1..][j] == cs[j + 1];
          }
        }
      }
      r
  }

  /**
   Applies, child by child in the given order, the push right by the child's
   width and the push down by its height around the child's anchor. No key
   appears or disappears; `PushAllKeepsOrder` and `PushAllMakesRoom` say how
   the entries move.
   */
  function PushAll(m: Coordinates, cs: seq<Child>): (r: Coordinates)
    requires AnchorsIn(m, cs)
    ensures r.Keys == m.Keys
    decreases |cs|
  {
    if cs == [] then m
    else
      var m1 := PushRound(m, cs[0].anchor, cs[0].width, cs[0].height);
      assert AnchorsIn(m1, cs[1..]) by {
        forall j | 0 <= j < |cs[1..]| ensures cs[1..][j].anchor in m1 {
          assert cs[1..][j] == cs[j + 1];
        }
      }
      PushAll(m1, cs[1..])
  }

  /** One round of pushes around `base`: the horizontal push, then the vertical one. */
  function PushRound(m: Coordinates, base: Key, width: nat, height: nat): (r: Coordinates)
    requires base in m
    ensures r.Keys == m.Keys
  {
    PushDown(PushLeft(m, base, width), base, height)
  }

  /**
   `r` holds the entries of `m`, none moved left or up, and any two entries
   strictly ordered on an axis in `m` are still so ordered in `r`.
   */
  predicate KeepsOrder(m: Coordinates, r: Coordinates)
  {
    && r.Keys == m.Keys
    && (forall key | key in m :: r[key].x >= m[key].x && r[key].y >= m[key].y)
    && (forall a, b | a in m && b in m && m[a].x < m[b].x :: r[a].x < r[b].x)
    && (forall a, b | a in m && b in m && m[a].y < m[b].y :: r[a].y < r[b].y)
  }

  /** No two entries of `m` share a point. */
  predicate Injective(m: Coordinates)
  {
    forall a, b | a in m && b in m && a != b :: m[a] != m[b]
  }

  /**
   Moves that keep strict order on both axes keep distinct points distinct:
   two different points differ strictly on one axis, and that stays so.
   */
  lemma KeepsOrderKeepsDistinct(m: Coordinates, r: Coordinates)
    requires KeepsOrder(m, r) && Injective(m)
    ensures Injective(r)
  {
    forall a, b | a in r && b in r && a != b ensures r[a] != r[b] {
      if m[a].x < m[b].x {
      } else if m[b].x < m[a].x {
      } else if m[a].y < m[b].y {
      } else {
        assert m[b].y < m[a].y;
      }
    }
  }

  /** Moves that never decrease a coordinate keep the layout on the grid. */
  lemma KeepsOrderOnGrid(m: Coordinates, r: Coordinates)
    requires KeepsOrder(m, r) && OnGridMap(m)
    ensures OnGridMap(r)
  {
    forall key | key in r ensures r[key].x >= 0 && r[key].y >= 0 {
      assert key in m;
    }
  }

  /**
   Going from `m` to `r` made room for a group of the given size at `anchor`:
   every node at or right of the anchor in `m` is at least `width` right of
   it in `r`, and every node at or below it at least `height` below it.
   */
  predicate MakesRoom(m: Coordinates, r: Coordinates, anchor: Key, width: int, height: int)
  {
    && anchor in m && anchor in r
    && (forall key | key in m && key in r && key.Node? && m[key].x >= m[anchor].x :: r[key].x >= r[anchor].x + width)
    && (forall key | key in m && key in r && key.Node? && m[key].y >= m[anchor].y :: r[key].y >= r[anchor].y + height)
  }

  /**
   The pushes of all groups never decrease a coordinate, and entries strictly
   ordered on an axis stay strictly ordered on it.
   */
  lemma {:induction false} PushAllKeepsOrder(m: Coordinates, cs: seq<Child>)
    requires AnchorsIn(m, cs)
    ensures KeepsOrder(m, PushAll(m, cs))
    decreases |cs|
  {
    if cs != [] {
      PushAllTail(m, cs);
      var m1 := PushRound(m, cs[0].anchor, cs[0].width, cs[0].height);
      RoundKeepsOrder(m, cs[0].anchor, cs[0].width, cs[0].height);
      PushAllKeepsOrder(m1, cs[1..]);
    }
  }

  lemma RoundKeepsOrder(m: Coordinates, base: Key, width: nat, height: nat)
    requires base in m
    ensures KeepsOrder(m, PushRound(m, base, width, height))
  {
    var l := PushLeft(m, base, width);
    assert forall key | key in m :: PushRound(m, base, width, height)[key].x == l[key].x;
  }

  /**
   One round never narrows the gap from an entry `a` to an entry `k` other
   than the base that lies at least `gap` beyond it, on either axis.
   */
  lemma RoundKeepsGap(m: Coordinates, base: Key, width: nat, height: nat, a: Key, k: Key, gap: nat)
    requires base in m && a in m && k in m && k != base
    ensures m[k].x >= m[a].x + gap ==> PushRound(m, base, width, height)[k].x >= PushRound(m, base, width, height)[a].x + gap
    ensures m[k].y >= m[a].y + gap ==> PushRound(m, base, width, height)[k].y >= PushRound(m, base, width, height)[a].y + gap
  {
    var l := PushLeft(m, base, width);
    var r := PushDown(l, base, height);
    assert forall key | key in m :: r[key].x == l[key].x && l[key].y == m[key].y;
  }

  lemma PushAllTail(m: Coordinates, cs: seq<Child>)
    requires cs != [] && AnchorsIn(m, cs)
    ensures AnchorsIn(PushRound(m, cs[0].anchor, cs[0].width, cs[0].height), cs[1..])
    ensures PushAll(m, cs) == PushAll(PushRound(m, cs[0].anchor, cs[0].width, cs[0].height), cs[1..])
  {
    var m1 := PushRound(m, cs[0].anchor, cs[0].width, cs[0].height);
    forall j | 0 <= j < |cs[1..]| ensures cs[1..][j].anchor in m1 {
      assert cs[1..][j] == cs[j + 1];
    }
  }

  /** The pushes of all groups never narrow a gap towards an entry that is no anchor. */
  lemma {:induction false} PushAllKeepsGap(m: Coordinates, cs: seq<Child>, a: Key, k: Key, gap: nat)
    requires AnchorsIn(m, cs) && a in m && k in m && Unanchored(k, cs)
    ensures m[k].x >= m[a].x + gap ==> PushAll(m, cs)[k].x >= PushAll(m, cs)[a].x + gap
    ensures m[k].y >= m[a].y + gap ==> PushAll(m, cs)[k].y >= PushAll(m, cs)[a].y + gap
    decreases |cs|
  {
    if cs != [] {
      PushAllTail(m, cs);
      var m1 := PushRound(m, cs[0].anchor, cs[0].width, cs[0].height);
      UnanchoredParts(k, cs, 1);
      assert cs[..1][0] == cs[0];
      RoundKeepsGap(m, cs[0].anchor, cs[0].width, cs[0].height, a, k, gap);
      PushAllKeepsGap(m1, cs[1..], a, k, gap);
    }
  }

  /**
   The pushes make room for every group: an entry that is no anchor and lies
   at or right of (at or below) group `i`'s anchor ends up at least that
   group's width (height) beyond the anchor.
   */
  lemma PushAllMakesRoom(m: Coordinates, cs: seq<Child>, i: nat, k: Key)
    requires AnchorsIn(m, cs) && i < |cs| && k in m && Unanchored(k, cs)
    ensures m[k].x >= m[cs[i].anchor].x ==>
      PushAll(m, cs)[k].x >= PushAll(m, cs)[cs[i].anchor].x + cs[i].width
    ensures m[k].y >= m[cs[i].anchor].y ==>
      PushAll(m, cs)[k].y >= PushAll(m, cs)[cs[i].anchor].y + cs[i].height
  {
    RoomFor(m, cs, cs[i], k);
  }

  /** `PushAllMakesRoom` for every node key at once, when every anchor is a placeholder key. */
  lemma PushAllMakesRoomForNodes(m: Coordinates, cs: seq<Child>, i: nat)
    requires AnchorsIn(m, cs) && i < |cs|
    requires forall j | 0 <= j < |cs| :: cs[j].anchor.Anchor?
    ensures MakesRoom(m, PushAll(m, cs), cs[i].anchor, cs[i].width, cs[i].height)
  {
    forall key | key in m && key.Node?
      ensures m[key].x >= m[cs[i].anchor].x ==> PushAll(m, cs)[key].x >= PushAll(m, cs)[cs[i].anchor].x + cs[i].width
      ensures m[key].y >= m[cs[i].anchor].y ==> PushAll(m, cs)[key].y >= PushAll(m, cs)[cs[i].anchor].y + cs[i].height
    {
      PushAllMakesRoom(m, cs, i, key);
    }
  }

  /** `PushAllMakesRoom` for a child named by value rather than by position. */
  lemma {:induction false} RoomFor(m: Coordinates, cs: seq<Child>, ch: Child, k: Key)
    requires AnchorsIn(m, cs) && ch in cs && k in m && Unanchored(k, cs)
    ensures ch.anchor in m
    ensures m[k].x >= m[ch.anchor].x ==> PushAll(m, cs)[k].x >= PushAll(m, cs)[ch.anchor].x + ch.width
    ensures m[k].y >= m[ch.anchor].y ==> PushAll(m, cs)[k].y >= PushAll(m, cs)[ch.anchor].y + ch.height
    decreases |cs|
  {
    if ch == cs[0] {
      FirstRoundMakesRoom(m, cs, k);
    } else {
      PushAllTail(m, cs);
      UnanchoredParts(k, cs, 1);
      assert cs[..1][0] == cs[0];
      assert ch in cs[1..];
      var m1 := PushRound(m, cs[0].anchor, cs[0].width, cs[0].height);
      RoundKeepsGap(m, cs[0].anchor, cs[0].width, cs[0].height, ch.anchor, k, 0);
      RoomFor(m1, cs[1..], ch, k);
    }
  }

  /** The first group's round opens the room, and the later rounds keep it. */
  lemma FirstRoundMakesRoom(m: Coordinates, cs: seq<Child>, k: Key)
    requires AnchorsIn(m, cs) && cs != [] && k in m && Unanchored(k, cs)
    ensures m[k].x >= m[cs[0].anchor].x ==>
      PushAll(m, cs)[k].x >= PushAll(m, cs)[cs[0].anchor].x + cs[0].width
    ensures m[k].y >= m[cs[0].anchor].y ==>
      PushAll(m, cs)[k].y >= PushAll(m, cs)[cs[0].anchor].y + cs[0].height
  {
    PushAllTail(m, cs);
    UnanchoredParts(k, cs, 1);
    var a := cs[0].anchor;
    var l := PushLeft(m, a, cs[0].width);
    var m1 := PushDown(l, a, cs[0].height);
    assert m1 == PushRound(m, a, cs[0].width, cs[0].height);
    assert m1[k].x == l[k].x && m1[a].x == l[a].x;
    assert l[k].y == m[k].y && l[a].y == m[a].y;
    PushAllKeepsGap(m1, cs[1..], a, k, cs[0].width);
    PushAllKeepsGap(m1, cs[1..], a, k, cs[0].height);
  }

  // ---------------------------------------------------------------------------
  // The recursive layout
  // ---------------------------------------------------------------------------

  /**
   The keys of a map in some fixed but unspecified order, each key exactly
   once, standing for the iteration order of the hash map that holds them.
   */
  ghost function VisitOrder(m: Coordinates): (ks: seq<Key>)
    ensures |ks| == |m|
    ensures forall i | 0 <= i < |ks| :: ks[i] in m
    ensures forall key | key in m :: key in ks
    ensures forall i, j | 0 <= i < j < |ks| :: ks[i] != ks[j]
    decreases |m|
  {
    if m == map[] then []
    else
      var key :| key in m;
      var rest := m - {key};
      assert |rest| == |m| - 1 by {
        assert rest.Keys == m.Keys - {key};
      }
      var tail := VisitOrder(rest);
      PrependKey(m, key, tail);
      [key] + tail
  }

  /** Visiting `key` first and then the rest of the map visits every key once. */
  lemma PrependKey(m: Coordinates, key: Key, tail: seq<Key>)
    requires key in m
    requires forall i | 0 <= i < |tail| :: tail[i] in m && tail[i] != key
    requires forall k | k in m && k != key :: k in tail
    requires forall i, j | 0 <= i < j < |tail| :: tail[i] != tail[j]
    ensures forall i | 0 <= i < |[key] + tail| :: ([key] + tail)[i] in m
    ensures forall k | k in m :: k in [key] + tail
    ensures forall i, j | 0 <= i < j < |[key] + tail| :: ([key] + tail)[i] != ([key] + tail)[j]
  {
    var ks := [key] + tail;
    assert forall i | 1 <= i < |ks| :: ks[i] == tail[i - 1];
  }

  /**
   The coordinates of a map as the hash map's value view yields them: one
   point per key, in the visit order of the keys.
   */
  ghost function Enumerate(m: Coordinates): (s: seq<Point>)
    ensures |s| == |m|
    ensures forall i | 0 <= i < |s| :: s[i] == m[VisitOrder(m)[i]]
  {
    var ks := VisitOrder(m);
    seq(|ks|, i requires 0 <= i < |ks| => m[ks[i]])
  }

  /** No coordinate of `m` is negative, as on the base engine's grid. */
  predicate OnGridMap(m: Coordinates)
  {
    forall key | key in m :: m[key].x >= 0 && m[key].y >= 0
  }

  /** On the grid, the scan as written over the visit order is the bounding box. */
  lemma EnumerationOnGrid(m: Coordinates)
    requires OnGridMap(m)
    ensures ScanExtent(Enumerate(m)) == IntendedExtent(Enumerate(m))
  {
    var s := Enumerate(m);
    assert OnGrid(s) by {
      forall i | 0 <= i < |s| ensures s[i].x >= 0 && s[i].y >= 0 {
        assert s[i] == m[VisitOrder(m)[i]];
      }
    }
    ScanAgreesOnGrid(s);
  }

  /**
   The view of child group `g` from a container whose compaction is `k`: the
   group is pushed around its own placeholder by the absolute spans of the
   extent scanned over its coordinates in visit order.
   */
  ghost function ChildOf(g: Container, k: Compaction, local: Coordinates): (ch: Child)
    requires g.id in k.placeholderOf
    ensures ch.anchor == Anchor(k.placeholderOf[g.id])
    ensures ch.groupKey == Node(g.id)
    ensures ch.hasLeaves <==> g.leaves != {}
    ensures ch.local == local
    ensures ch.width == Width(ScanExtent(Enumerate(local)))
    ensures ch.height == Height(ScanExtent(Enumerate(local)))
  {
    var e := ScanExtent(Enumerate(local));
    Child(Anchor(k.placeholderOf[g.id]), Node(g.id), g.leaves != {}, local, Width(e), Height(e))
  }

  /**
   The room a group needs spans its coordinates: every x lies within the width
   of the scanned x minimum, and every y within the height of zero. On the
   grid, width and height are exactly the spans of the group's bounding box.
   */
  lemma ChildRoom(g: Container, k: Compaction, local: Coordinates)
    requires g.id in k.placeholderOf
    ensures forall key | key in local ::
      local[key].x - ScanExtent(Enumerate(local)).xMin <= ChildOf(g, k, local).width
      && local[key].y <= ChildOf(g, k, local).height
    ensures OnGridMap(local) ==>
      && ChildOf(g, k, local).width == IntendedExtent(Enumerate(local)).xMax - IntendedExtent(Enumerate(local)).xMin
      && ChildOf(g, k, local).height == IntendedExtent(Enumerate(local)).yMax - IntendedExtent(Enumerate(local)).yMin
  {
    var s := Enumerate(local);
    var e := ScanExtent(s);
    var ch := ChildOf(g, k, local);
    ScanOffsetsAreSpans(s);
    assert ch.width == Width(e) && ch.height == Height(e);
    forall key | key in local ensures local[key].x - e.xMin <= ch.width && local[key].y <= ch.height {
      var i :| 0 <= i < |s| && VisitOrder(local)[i] == key;
      assert s[i] == local[key];
    }
    if OnGridMap(local) {
      EnumerationOnGrid(local);
    }
  }

  /** Every child group of `c`, in processing order, with its own layout. */
  ghost function Children(c: Container, compact: Container -> Compaction): (cs: seq<Child>)
    requires SuppliedTree(c, compact)
    ensures |cs| == |c.groups|
    ensures forall i | 0 <= i < |cs| :: cs[i] == ChildOf(c.groups[i], compact(c), Layout(c.groups[i], compact))
    decreases c, 0
  {
    seq(|c.groups|, i requires 0 <= i < |c.groups| =>
      ChildOf(c.groups[i], compact(c), Layout(c.groups[i], compact)))
  }

  lemma ChildrenAnchored(c: Container, compact: Container -> Compaction)
    requires SuppliedTree(c, compact)
    ensures AnchorsIn(Dealias(compact(c)), Children(c, compact))
    ensures DistinctAnchors(Children(c, compact))
    ensures forall i | 0 <= i < |c.groups| :: Children(c, compact)[i].anchor.Anchor?
    decreases c, 1
  {
    var k := compact(c);
    var cs := Children(c, compact);
    forall i | 0 <= i < |cs| ensures cs[i].anchor in Dealias(k) {
      assert cs[i].anchor == Anchor(k.placeholderOf[c.groups[i].id]);
    }
  }

  /** The level's coordinates after every group has pushed its neighbours aside. */
  ghost function Placed(c: Container, compact: Container -> Compaction): (m: Coordinates)
    requires SuppliedTree(c, compact)
    ensures AnchorsIn(m, Children(c, compact))
    ensures m.Keys == Dealias(compact(c)).Keys
    decreases c, 2
  {
    ChildrenAnchored(c, compact);
    PushAll(Dealias(compact(c)), Children(c, compact))
  }

  /**
   The coordinates a layout computer built over `c` holds once its
   construction is over.
   */
  ghost function Layout(c: Container, compact: Container -> Compaction): (r: Coordinates)
    requires SuppliedTree(c, compact)
    decreases c, 3
  {
    if c.groups == [] then Dealias(compact(c))
    else
      ChildrenAnchored(c, compact);
      ComposeAll(Placed(c, compact), Children(c, compact))
  }
}
