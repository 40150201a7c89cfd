/**
 `traverse_tree` inside `create_visual_tree_html`: walks the folded path tree down to a fixed
 depth, giving every visited node an id, recording it in `all_nodes`, and adding one
 connection from its parent's id to its own. The page later draws each connection between
 the elements it finds by those ids.

 The ids are built by one of two schemes: `AsWritten` is the source's
 `node_{depth}_{i}_{key}`, which is not unique across parents; `IndexPath` numbers a node by
 the positions on its path from the root, which is.
 */
module VisualTree {
  import opened Text
  import opened Results
  import opened PathTree

  /** `traverse_tree` returns at once when its depth exceeds this. */
  const MaxVisualDepth: nat := 4

  /** The dictionary `node_data`. */
  datatype VisualNode = VisualNode(id: string, name: string, path: string, depth: nat,
                                   isFolder: bool, parentId: string, children: seq<VisualNode>)

  /** One entry of `connections`. */
  datatype Edge = Edge(from: string, to: string)

  /**
   What one call produces: its return value (`level_nodes`), the nodes it stores into
   `all_nodes` in the order it stores them, and the connections it appends.
   */
  datatype Traversal = Traversal(nodes: seq<VisualNode>, visited: seq<VisualNode>, edges: seq<Edge>)

  datatype IdScheme = AsWritten | IndexPath

  /** The key with every slash and every space turned into an underscore. */
  function Sanitize(key: string): (r: string)
    ensures |r| == |key| && '/' !in r && ' ' !in r
  {
    seq(|key|, k requires 0 <= k < |key| => if key[k] == '/' || key[k] == ' ' then '_' else key[k])
  }

  /** The id of a node as written: its depth, its position among its siblings and its sanitized key. */
  function NodeId(depth: nat, i: nat, key: string): string {
    "node_" + NatToString(depth) + "_" + NatToString(i) + "_" + Sanitize(key)
  }

  /** The decimal numerals of a sequence of positions. */
  function Numerals(positions: seq<nat>): (ns: seq<string>)
    ensures |ns| == |positions|
    ensures forall k :: 0 <= k < |positions| ==> ns[k] == NatToString(positions[k])
  {
    if positions == [] then [] else [NatToString(positions[0])] + Numerals(positions[1..])
  }

  /** `node` followed by `_i` for each position on the path from the root. */
  function IndexPathId(positions: seq<nat>): string {
    Join(["node"] + Numerals(positions), "_")
  }

  /** The id a node gets; `positions` lists the positions on its path, its own last. */
  function MakeId(scheme: IdScheme, positions: seq<nat>, key: string): (id: string)
    requires positions != []
    ensures id != ""
  {
    match scheme
    case AsWritten => NodeId(|positions| - 1, positions[|positions| - 1], key)
    case IndexPath => IndexPathId(positions)
  }

  /** The path of a node: its key below the parent's path, or the key alone at the top. */
  function NodePath(parentPath: string, key: string): string {
    if parentPath != "" then parentPath + "/" + key else key
  }

  const NoTraversal: Traversal := Traversal([], [], [])

  /** Connection `k` runs from the parent of visited node `k` to that node. */
  predicate Paired(visited: seq<VisualNode>, edges: seq<Edge>) {
    && |edges| == |visited|
    && forall k :: 0 <= k < |visited| ==> edges[k] == Edge(visited[k].parentId, visited[k].id)
  }

  /** Every node is at depth `low` or deeper, and none deeper than `MaxVisualDepth`. */
  predicate DepthsWithin(visited: seq<VisualNode>, low: nat) {
    forall k :: 0 <= k < |visited| ==> low <= visited[k].depth <= MaxVisualDepth
  }

  lemma PairedJoin(v1: seq<VisualNode>, e1: seq<Edge>, v2: seq<VisualNode>, e2: seq<Edge>)
    ensures Paired(v1, e1) && Paired(v2, e2) ==> Paired(v1 + v2, e1 + e2)
  {
    if Paired(v1, e1) && Paired(v2, e2) {
      forall k | 0 <= k < |v1 + v2| ensures (e1 + e2)[k] == Edge((v1 + v2)[k].parentId, (v1 + v2)[k].id) {
        if k >= |v1| {
          assert (v1 + v2)[k] == v2[k - |v1|] && (e1 + e2)[k] == e2[k - |v1|];
        }
      }
    }
  }

  lemma DepthsJoin(v1: seq<VisualNode>, v2: seq<VisualNode>, low: nat)
    requires DepthsWithin(v1, low) && DepthsWithin(v2, low)
    ensures DepthsWithin(v1 + v2, low)
  {
    forall k | 0 <= k < |v1 + v2| ensures low <= (v1 + v2)[k].depth <= MaxVisualDepth {
      if k >= |v1| {
        assert (v1 + v2)[k] == v2[k - |v1|];
      }
    }
  }

  /**
   `traverse_tree(node, parent_path, parent_id, depth)` with `depth == |positions|`; the
   parent id is a string, and "" stands for a falsy one.
   */
  function TraverseTree(scheme: IdScheme, t: Tree, parentPath: string, parentId: string, positions: seq<nat>)
    : (r: Traversal)
    ensures parentId != "" ==> Paired(r.visited, r.edges)
    ensures DepthsWithin(r.visited, |positions|)
    decreases t, 1
  {
    if |positions| > MaxVisualDepth then NoTraversal
    else TraverseFrom(scheme, t, 0, parentPath, parentId, positions)
  }

  /** The recursive call for child `i`, made only when the child is a folder. */
  function ChildTraversal(scheme: IdScheme, t: Tree, i: nat, parentPath: string, positions: seq<nat>)
    : (r: Traversal)
    requires i < |t.children| && |positions| <= MaxVisualDepth
    ensures Paired(r.visited, r.edges)
    ensures DepthsWithin(r.visited, |positions| + 1)
    decreases t, 0, |t.children| - i
  {
    var child := t.children[i];
    if child.sub.children != [] then
      TraverseTree(scheme, child.sub, NodePath(parentPath, child.name), MakeId(scheme, positions + [i], child.name), positions + [i])
    else NoTraversal
  }

  /** `node_data` for child `i`, with the children the recursive call returned. */
  function ChildNode(scheme: IdScheme, t: Tree, i: nat, parentPath: string, parentId: string, positions: seq<nat>)
    : VisualNode
    requires i < |t.children| && |positions| <= MaxVisualDepth
    decreases t, 0, |t.children| - i + 1
  {
    var child := t.children[i];
    VisualNode(MakeId(scheme, positions + [i], child.name), child.name, NodePath(parentPath, child.name),
               |positions|, child.sub.children != [], parentId,
               ChildTraversal(scheme, t, i, parentPath, positions).nodes)
  }

  /** The loop of `traverse_tree` from child `i` on. */
  function TraverseFrom(scheme: IdScheme, t: Tree, i: nat, parentPath: string, parentId: string, positions: seq<nat>)
    : (r: Traversal)
    requires i <= |t.children| && |positions| <= MaxVisualDepth
    ensures parentId != "" ==> Paired(r.visited, r.edges)
    ensures DepthsWithin(r.visited, |positions|)
    decreases t, 0, |t.children| - i + 2
  {
    if i == |t.children| then NoTraversal
    else
      var node := ChildNode(scheme, t, i, parentPath, parentId, positions);
      var sub := ChildTraversal(scheme, t, i, parentPath, positions);
      var edge := if parentId != "" then [Edge(parentId, node.id)] else [];
      var rest := TraverseFrom(scheme, t, i + 1, parentPath, parentId, positions);
      PairedJoin([node], edge, sub.visited, sub.edges);
      PairedJoin([node] + sub.visited, edge + sub.edges, rest.visited, rest.edges);
      DepthsJoin([node], sub.visited, |positions|);
      DepthsJoin([node] + sub.visited, rest.visited, |positions|);
      Traversal([node] + rest.nodes, [node] + sub.visited + rest.visited, edge + sub.edges + rest.edges)
  }

  /**
   A node of the result stands for a child of the tree: same name, the call's depth and parent,
   a folder exactly when the child has children of its own, and children only when a folder.
   */
  predicate Mirrors(n: VisualNode, child: Node, depth: nat, parentId: string) {
    && n.name == child.name
    && n.depth == depth
    && n.parentId == parentId
    && (n.isFolder <==> child.sub.children != [])
    && (n.children != [] ==> n.isFolder)
  }

  lemma ChildNodeMirrors(scheme: IdScheme, t: Tree, i: nat, parentPath: string, parentId: string, positions: seq<nat>)
    requires i < |t.children| && |positions| <= MaxVisualDepth
    ensures Mirrors(ChildNode(scheme, t, i, parentPath, parentId, positions), t.children[i], |positions|, parentId)
  {
    if t.children[i].sub.children == [] {
      assert ChildTraversal(scheme, t, i, parentPath, positions) == NoTraversal;
    }
  }

  /** One step of the loop: child `i`, what lies below it, then the later children. */
  lemma TraverseFromStep(scheme: IdScheme, t: Tree, i: nat, parentPath: string, parentId: string, positions: seq<nat>)
    requires i < |t.children| && |positions| <= MaxVisualDepth
    ensures var r := TraverseFrom(scheme, t, i, parentPath, parentId, positions);
      var node := ChildNode(scheme, t, i, parentPath, parentId, positions);
      var rest := TraverseFrom(scheme, t, i + 1, parentPath, parentId, positions);
      && r.nodes == [node] + rest.nodes
      && r.visited == [node] + ChildTraversal(scheme, t, i, parentPath, positions).visited + rest.visited
  {
  }

  /** Node `k` of a level stands for child `k`. */
  predicate LevelMirrors(nodes: seq<VisualNode>, children: seq<Node>, depth: nat, parentId: string) {
    && |nodes| == |children|
    && forall k :: 0 <= k < |nodes| ==> Mirrors(nodes[k], children[k], depth, parentId)
  }

  lemma LevelMirrorsCons(n: VisualNode, nodes: seq<VisualNode>, c: Node, children: seq<Node>, depth: nat, parentId: string)
    requires Mirrors(n, c, depth, parentId) && LevelMirrors(nodes, children, depth, parentId)
    ensures LevelMirrors([n] + nodes, [c] + children, depth, parentId)
  {
    forall k | 1 <= k < |nodes| + 1 ensures Mirrors(([n] + nodes)[k], ([c] + children)[k], depth, parentId) {
      assert ([n] + nodes)[k] == nodes[k - 1] && ([c] + children)[k] == children[k - 1];
    }
  }

  /** One level of the result: a node per child, in the children's order. */
  lemma {:induction false} TraverseLevel(scheme: IdScheme, t: Tree, i: nat, parentPath: string, parentId: string, positions: seq<nat>)
    requires i <= |t.children| && |positions| <= MaxVisualDepth
    ensures LevelMirrors(TraverseFrom(scheme, t, i, parentPath, parentId, positions).nodes, t.children[i..], |positions|, parentId)
    decreases |t.children| - i
  {
    if i < |t.children| {
      TraverseLevel(scheme, t, i + 1, parentPath, parentId, positions);
      TraverseFromStep(scheme, t, i, parentPath, parentId, positions);
      ChildNodeMirrors(scheme, t, i, parentPath, parentId, positions);
      assert t.children[i..] == [t.children[i]] + t.children[i + 1..];
      LevelMirrorsCons(ChildNode(scheme, t, i, parentPath, parentId, positions),
                       TraverseFrom(scheme, t, i + 1, parentPath, parentId, positions).nodes,
                       t.children[i], t.children[i + 1..], |positions|, parentId);
    }
  }

  /** The nodes `traverse_tree` returns stand for the children of its tree, one for one, in order. */
  lemma TraverseTreeLevel(scheme: IdScheme, t: Tree, parentPath: string, parentId: string, positions: seq<nat>)
    requires |positions| <= MaxVisualDepth
    ensures LevelMirrors(TraverseTree(scheme, t, parentPath, parentId, positions).nodes, t.children, |positions|, parentId)
  {
    TraverseLevel(scheme, t, 0, parentPath, parentId, positions);
    assert t.children[0..] == t.children;
  }

  /** The traversal started at the root: no parent path, parent id "root", depth 0. */
  function RootTraversal(scheme: IdScheme, t: Tree): (r: Traversal)
    ensures LevelMirrors(r.nodes, t.children, 0, "root")
  {
    TraverseTreeLevel(scheme, t, "", "root", []);
    TraverseTree(scheme, t, "", "root", [])
  }

  /** How many levels of nodes `traverse_tree` still visits when called at `depth`. */
  function VisualLevels(depth: nat): nat {
    if depth > MaxVisualDepth then 0 else MaxVisualDepth + 1 - depth
  }

  /** Every node within the first five levels is visited once; nothing deeper is. */
  lemma {:induction false} TraverseCount(scheme: IdScheme, t: Tree, parentPath: string, parentId: string, positions: seq<nat>)
    ensures |TraverseTree(scheme, t, parentPath, parentId, positions).visited| == NodesWithin(t, VisualLevels(|positions|))
    decreases t, 1
  {
    if |positions| <= MaxVisualDepth {
      TraverseFromCount(scheme, t, 0, parentPath, parentId, positions);
    }
  }

  lemma {:induction false} TraverseFromCount(scheme: IdScheme, t: Tree, i: nat, parentPath: string, parentId: string, positions: seq<nat>)
    requires i <= |t.children| && |positions| <= MaxVisualDepth
    ensures |TraverseFrom(scheme, t, i, parentPath, parentId, positions).visited|
         == NodesWithinFrom(t, i, VisualLevels(|positions|))
    decreases t, 0, |t.children| - i
  {
    if i < |t.children| {
      var levels := VisualLevels(|positions|);
      var r := TraverseFrom(scheme, t, i, parentPath, parentId, positions);
      var sub := ChildTraversal(scheme, t, i, parentPath, positions);
      var rest := TraverseFrom(scheme, t, i + 1, parentPath, parentId, positions);
      assert |r.visited| == 1 + |sub.visited| + |rest.visited| by {
        TraverseFromStep(scheme, t, i, parentPath, parentId, positions);
      }
      ChildCount(scheme, t, i, parentPath, positions);
      TraverseFromCount(scheme, t, i + 1, parentPath, parentId, positions);
      assert levels > 0;
      assert NodesWithinFrom(t, i, levels)
          == 1 + NodesWithin(t.children[i].sub, levels - 1) + NodesWithinFrom(t, i + 1, levels);
    }
  }

  lemma {:induction false} ChildCount(scheme: IdScheme, t: Tree, i: nat, parentPath: string, positions: seq<nat>)
    requires i < |t.children| && |positions| <= MaxVisualDepth
    ensures |ChildTraversal(scheme, t, i, parentPath, positions).visited|
         == NodesWithin(t.children[i].sub, VisualLevels(|positions|) - 1)
    decreases t, 0, |t.children| - i - 1
  {
    var key := t.children[i].name;
    var value := t.children[i].sub;
    if value.children != [] {
      TraverseCount(scheme, value, NodePath(parentPath, key), MakeId(scheme, positions + [i], key), positions + [i]);
      assert VisualLevels(|positions + [i]|) == VisualLevels(|positions|) - 1;
    }
  }

  /** From the root, every visited node has exactly one connection, from its parent's id (or "root"). */
  lemma RootConnections(scheme: IdScheme, t: Tree)
    ensures var r := RootTraversal(scheme, t);
      && |r.visited| == NodesWithin(t, MaxVisualDepth + 1)
      && Paired(r.visited, r.edges)
  {
    TraverseCount(scheme, t, "", "root", []);
  }

  // ----- The ids -----

  /**
   The positions on the path of every visited node, in visiting order: the ids of the
   `IndexPath` scheme are made from these.
   */
  function Positions(t: Tree, positions: seq<nat>): seq<seq<nat>>
    decreases t, 1
  {
    if |positions| > MaxVisualDepth then [] else PositionsFrom(t, 0, positions)
  }

  function PositionsFrom(t: Tree, i: nat, positions: seq<nat>): seq<seq<nat>>
    requires i <= |t.children|
    decreases t, 0, |t.children| - i
  {
    if i == |t.children| then []
    else
      var here := positions + [i];
      var below := if t.children[i].sub.children != [] then Positions(t.children[i].sub, here) else [];
      [here] + below + PositionsFrom(t, i + 1, positions)
  }

  /** Visited node `k` has the id made from `ps[k]`, its own position path. */
  predicate IdsFollow(scheme: IdScheme, visited: seq<VisualNode>, ps: seq<seq<nat>>) {
    && |visited| == |ps|
    && forall k :: 0 <= k < |ps| ==> ps[k] != [] && visited[k].id == MakeId(scheme, ps[k], visited[k].name)
  }

  lemma IdsJoin(scheme: IdScheme, v1: seq<VisualNode>, p1: seq<seq<nat>>, v2: seq<VisualNode>, p2: seq<seq<nat>>)
    requires IdsFollow(scheme, v1, p1) && IdsFollow(scheme, v2, p2)
    ensures IdsFollow(scheme, v1 + v2, p1 + p2)
  {
    forall k | |p1| <= k < |p1 + p2|
      ensures (p1 + p2)[k] != [] && (v1 + v2)[k].id == MakeId(scheme, (p1 + p2)[k], (v1 + v2)[k].name)
    {
      assert (p1 + p2)[k] == p2[k - |p1|] && (v1 + v2)[k] == v2[k - |p1|];
    }
  }

  /** Each visited node's id is made from its own positions. */
  lemma {:induction false} VisitedIds(scheme: IdScheme, t: Tree, parentPath: string, parentId: string, positions: seq<nat>)
    ensures IdsFollow(scheme, TraverseTree(scheme, t, parentPath, parentId, positions).visited, Positions(t, positions))
    decreases t, 1
  {
    if |positions| <= MaxVisualDepth {
      VisitedIdsFrom(scheme, t, 0, parentPath, parentId, positions);
    }
  }

  lemma {:induction false} VisitedIdsFrom(scheme: IdScheme, t: Tree, i: nat, parentPath: string, parentId: string, positions: seq<nat>)
    requires i <= |t.children| && |positions| <= MaxVisualDepth
    ensures IdsFollow(scheme, TraverseFrom(scheme, t, i, parentPath, parentId, positions).visited, PositionsFrom(t, i, positions))
    decreases t, 0, |t.children| - i
  {
    if i < |t.children| {
      var child := t.children[i];
      var here := positions + [i];
      var node := ChildNode(scheme, t, i, parentPath, parentId, positions);
      var sub := ChildTraversal(scheme, t, i, parentPath, positions);
      var rest := TraverseFrom(scheme, t, i + 1, parentPath, parentId, positions);
      var below := if child.sub.children != [] then Positions(child.sub, here) else [];
      var later := PositionsFrom(t, i + 1, positions);
      assert TraverseFrom(scheme, t, i, parentPath, parentId, positions).visited == [node] + sub.visited + rest.visited;
      assert PositionsFrom(t, i, positions) == [here] + below + later;
      if child.sub.children != [] {
        VisitedIds(scheme, child.sub, NodePath(parentPath, child.name), MakeId(scheme, here, child.name), here);
      }
      VisitedIdsFrom(scheme, t, i + 1, parentPath, parentId, positions);
      assert IdsFollow(scheme, [node], [here]);
      IdsJoin(scheme, [node], [here], sub.visited, below);
      IdsJoin(scheme, [node] + sub.visited, [here] + below, rest.visited, later);
    }
  }

  /** `q` lies in the subtree of the node at `positions`: it extends `positions`. */
  predicate Extends(q: seq<nat>, positions: seq<nat>) {
    |q| > |positions| && q[..|positions|] == positions
  }

  /** Every entry of `ps` extends `positions` and branches off at child `from` or a later one. */
  predicate ExtendFrom(ps: seq<seq<nat>>, positions: seq<nat>, from: nat) {
    forall k :: 0 <= k < |ps| ==> Extends(ps[k], positions) && ps[k][|positions|] >= from
  }

  predicate DistinctPaths(ps: seq<seq<nat>>) {
    forall j, k :: 0 <= j < k < |ps| ==> ps[j] != ps[k]
  }

  /** The positions under a node are pairwise different and all extend the node's own. */
  lemma {:induction false} PositionsDistinct(t: Tree, positions: seq<nat>)
    ensures ExtendFrom(Positions(t, positions), positions, 0)
    ensures DistinctPaths(Positions(t, positions))
    decreases t, 1
  {
    if |positions| <= MaxVisualDepth {
      PositionsFromDistinct(t, 0, positions);
    }
  }

  lemma {:induction false} PositionsFromDistinct(t: Tree, i: nat, positions: seq<nat>)
    requires i <= |t.children|
    ensures ExtendFrom(PositionsFrom(t, i, positions), positions, i)
    ensures DistinctPaths(PositionsFrom(t, i, positions))
    decreases t, 0, |t.children| - i
  {
    if i < |t.children| {
      var here := positions + [i];
      var value := t.children[i].sub;
      var below := if value.children != [] then Positions(value, here) else [];
      var later := PositionsFrom(t, i + 1, positions);
      assert PositionsFrom(t, i, positions) == [here] + below + later;
      if value.children != [] {
        PositionsDistinct(value, here);
      }
      PositionsFromDistinct(t, i + 1, positions);
      ExtendBelow(below, positions, i);
      DistinctBlock(positions, i, below, later);
    }
  }

  /** What lies under child `i` extends `positions` and branches off at `i`. */
  lemma ExtendBelow(below: seq<seq<nat>>, positions: seq<nat>, i: nat)
    requires ExtendFrom(below, positions + [i], 0)
    ensures forall k :: 0 <= k < |below| ==>
      Extends(below[k], positions) && below[k][|positions|] == i && |below[k]| > |positions| + 1
  {
    var here := positions + [i];
    forall k | 0 <= k < |below|
      ensures Extends(below[k], positions) && below[k][|positions|] == i && |below[k]| > |positions| + 1
    {
      assert below[k][..|here|] == here;
      assert below[k][..|positions|] == below[k][..|here|][..|positions|];
      assert below[k][|positions|] == below[k][..|here|][|positions|];
    }
  }

  /** Child `i`, then what lies under it, then the later children's positions: all different. */
  lemma DistinctBlock(positions: seq<nat>, i: nat, below: seq<seq<nat>>, later: seq<seq<nat>>)
    requires forall k :: 0 <= k < |below| ==>
      Extends(below[k], positions) && below[k][|positions|] == i && |below[k]| > |positions| + 1
    requires DistinctPaths(below)
    requires ExtendFrom(later, positions, i + 1) && DistinctPaths(later)
    ensures ExtendFrom([positions + [i]] + below + later, positions, i)
    ensures DistinctPaths([positions + [i]] + below + later)
  {
    var here := positions + [i];
    var ps := [here] + below + later;
    assert here[..|positions|] == positions && here[|positions|] == i;
    forall k | 0 <= k < |ps| ensures Extends(ps[k], positions) && ps[k][|positions|] >= i {
      if 1 <= k < 1 + |below| {
        assert ps[k] == below[k - 1];
      } else if k >= 1 + |below| {
        assert ps[k] == later[k - 1 - |below|];
      }
    }
    forall j, k | 0 <= j < k < |ps| ensures ps[j] != ps[k] {
      if j == 0 && k < 1 + |below| {
        assert ps[k] == below[k - 1];
        assert |ps[k]| > |here|;
      } else if j == 0 {
        assert ps[k] == later[k - 1 - |below|];
        assert ps[k][|positions|] > i;
      } else if k < 1 + |below| {
        assert ps[j] == below[j - 1] && ps[k] == below[k - 1];
      } else if j < 1 + |below| {
        assert ps[j] == below[j - 1] && ps[k] == later[k - 1 - |below|];
        assert ps[j][|positions|] == i && ps[k][|positions|] > i;
      } else {
        assert ps[j] == later[j - 1 - |below|] && ps[k] == later[k - 1 - |below|];
      }
    }
  }

  lemma NumeralsHaveNoUnderscore(positions: seq<nat>)
    ensures forall k :: 0 <= k < |positions| ==> '_' !in Numerals(positions)[k]
  {
    forall k | 0 <= k < |positions| ensures '_' !in Numerals(positions)[k] {
      var s := NatToString(positions[k]);
      assert forall j :: 0 <= j < |s| ==> IsDigit(s[j]);
    }
  }

  /** An id as written tells its depth and its position apart, and then its sanitized key. */
  lemma NodeIdInjective(d: nat, i: nat, key: string, d': nat, i': nat, key': string)
    requires NodeId(d, i, key) == NodeId(d', i', key')
    ensures d == d' && i == i' && Sanitize(key) == Sanitize(key')
  {
    var parts := NodeIdParts(d, i, key);
    var parts' := NodeIdParts(d', i', key');
    assert parts[1] == parts'[1] && parts[2] == parts'[2];
    NatToStringInjective(d, d');
    NatToStringInjective(i, i');
    var head := "node_" + NatToString(d) + "_" + NatToString(i) + "_";
    assert NodeId(d, i, key) == head + Sanitize(key);
    assert NodeId(d', i', key') == head + Sanitize(key');
    assert Sanitize(key) == NodeId(d, i, key)[|head|..];
  }

  /** Cut at `_`, an id as written starts with "node", the depth and the position. */
  lemma NodeIdParts(d: nat, i: nat, key: string) returns (parts: seq<string>)
    ensures parts == Split(NodeId(d, i, key), '_')
    ensures |parts| >= 3 && parts[1] == NatToString(d) && parts[2] == NatToString(i)
  {
    var depth, position := NatToString(d), NatToString(i);
    NumeralsHaveNoUnderscore([d, i]);
    assert Numerals([d, i]) == [depth, position];
    var head := ["node", depth, position];
    assert Join(head, "_") == "node" + ("_" + (depth + ("_" + position))) by {
      JoinCons("node", [depth, position], "_");
      JoinCons(depth, [position], "_");
      assert [depth, position] == [depth] + [position];
    }
    assert NodeId(d, i, key) == Join(head, "_") + (['_'] + Sanitize(key));
    SplitJoin(head, '_');
    SplitAtSeparator(Join(head, "_"), Sanitize(key), '_');
    parts := Split(NodeId(d, i, key), '_');
  }

  /** Different position paths give different `IndexPath` ids. */
  lemma IndexPathIdInjective(p: seq<nat>, q: seq<nat>)
    requires IndexPathId(p) == IndexPathId(q)
    ensures p == q
  {
    NumeralsHaveNoUnderscore(p);
    NumeralsHaveNoUnderscore(q);
    var pp := ["node"] + Numerals(p);
    var qq := ["node"] + Numerals(q);
    assert forall k :: 0 <= k < |pp| ==> '_' !in pp[k] by {
      forall k | 0 <= k < |pp| ensures '_' !in pp[k] {
        if k > 0 { assert pp[k] == Numerals(p)[k - 1]; }
      }
    }
    assert forall k :: 0 <= k < |qq| ==> '_' !in qq[k] by {
      forall k | 0 <= k < |qq| ensures '_' !in qq[k] {
        if k > 0 { assert qq[k] == Numerals(q)[k - 1]; }
      }
    }
    SplitJoin(pp, '_');
    SplitJoin(qq, '_');
    assert pp == qq;
    assert Numerals(p) == pp[1..] && Numerals(q) == qq[1..];
    forall k | 0 <= k < |p| ensures p[k] == q[k] {
      NatToStringInjective(p[k], q[k]);
    }
  }

  /** With `IndexPath` ids, no two visited nodes share an id. */
  lemma IndexPathIdsUnique(t: Tree)
    ensures var r := RootTraversal(IndexPath, t);
      forall j, k :: 0 <= j < k < |r.visited| ==> r.visited[j].id != r.visited[k].id
  {
    var r := RootTraversal(IndexPath, t);
    var ps := Positions(t, []);
    VisitedIds(IndexPath, t, "", "root", []);
    PositionsDistinct(t, []);
    forall j, k | 0 <= j < k < |r.visited| ensures r.visited[j].id != r.visited[k].id {
      if r.visited[j].id == r.visited[k].id {
        IndexPathIdInjective(ps[j], ps[k]);
      }
    }
  }

  /** A folder holding the single page `x`, visited at the depth of `positions`. */
  lemma TraverseOnePage(scheme: IdScheme, x: string, parentPath: string, parentId: string, positions: seq<nat>)
    requires |positions| <= MaxVisualDepth
    ensures TraverseTree(scheme, Tree([Node(x, Empty)]), parentPath, parentId, positions).visited
         == [VisualNode(MakeId(scheme, positions + [0], x), x, NodePath(parentPath, x), |positions|, false, parentId, [])]
  {
    var leaf := Tree([Node(x, Empty)]);
    var node := ChildNode(scheme, leaf, 0, parentPath, parentId, positions);
    assert ChildTraversal(scheme, leaf, 0, parentPath, positions) == NoTraversal;
    assert TraverseFrom(scheme, leaf, 1, parentPath, parentId, positions) == NoTraversal;
    assert TraverseFrom(scheme, leaf, 0, parentPath, parentId, positions).visited == [node] + [] + [];
  }

  /**
   With the ids as written, the pages /a/x and /b/x (for any folder names a, b and page name x)
   are two different visited nodes that get the same id `node_1_0_x`, and both connections
   into them name that one id.
   */
  lemma AsWrittenIdsCollide(a: string, b: string, x: string)
    requires IsSegment(a) && IsSegment(b) && IsSegment(x) && a != b
    ensures var r := RootTraversal(AsWritten, BuildTree(["/" + a + "/" + x, "/" + b + "/" + x]));
      && |r.visited| == 4
      && r.visited[1].path == a + "/" + x && r.visited[3].path == b + "/" + x
      && r.visited[1].path != r.visited[3].path
      && r.visited[1].id == r.visited[3].id == NodeId(1, 0, x)
      && r.edges[1].to == r.edges[3].to
  {
    FoldSiblingFolders(a, b, x);
    var leaf := Tree([Node(x, Empty)]);
    var t := Tree([Node(a, leaf), Node(b, leaf)]);
    var r := RootTraversal(AsWritten, t);
    var underA := ChildTraversal(AsWritten, t, 0, "", []);
    var underB := ChildTraversal(AsWritten, t, 1, "", []);
    TwoFolders(AsWritten, t);
    FolderPage(a, b, x, 0);
    FolderPage(a, b, x, 1);
    assert r.visited[1] == underA.visited[0] && r.visited[3] == underB.visited[0];
    SlashAfterSegment(a, b, x);
    RootConnections(AsWritten, t);
  }

  /** A root with two folders is visited as: folder, its pages, folder, its pages. */
  lemma TwoFolders(scheme: IdScheme, t: Tree)
    requires |t.children| == 2
    ensures RootTraversal(scheme, t).visited
         == [ChildNode(scheme, t, 0, "", "root", [])] + ChildTraversal(scheme, t, 0, "", []).visited
          + ([ChildNode(scheme, t, 1, "", "root", [])] + ChildTraversal(scheme, t, 1, "", []).visited)
  {
    TraverseFromStep(scheme, t, 0, "", "root", []);
    TraverseFromStep(scheme, t, 1, "", "root", []);
    assert TraverseFrom(scheme, t, 2, "", "root", []) == NoTraversal;
    assert RootTraversal(scheme, t) == TraverseFrom(scheme, t, 0, "", "root", []);
  }

  /** The only page under folder `k` of the tree of /a/x and /b/x, with the ids as written. */
  lemma FolderPage(a: string, b: string, x: string, k: nat)
    requires k < 2 && a != "" && b != ""
    ensures var t := Tree([Node(a, Tree([Node(x, Empty)])), Node(b, Tree([Node(x, Empty)]))]);
      var v := ChildTraversal(AsWritten, t, k, "", []).visited;
      && |v| == 1
      && v[0].id == NodeId(1, 0, x)
      && v[0].path == (if k == 0 then a else b) + "/" + x
  {
    var folder := if k == 0 then a else b;
    assert NodePath("", folder) + "/" + x == folder + "/" + x;
    TraverseOnePage(AsWritten, x, NodePath("", folder), MakeId(AsWritten, [] + [k], folder), [] + [k]);
    assert [] + [k] + [0] == [k, 0];
  }

  /** `a/x` and `b/x` differ when the segments `a` and `b` do. */
  lemma SlashAfterSegment(a: string, b: string, x: string)
    requires IsSegment(a) && IsSegment(b) && a != b
    ensures a + "/" + x != b + "/" + x
  {
    var s, u := a + "/" + x, b + "/" + x;
    if |a| == |b| {
      var k :| 0 <= k < |a| && a[k] != b[k];
      assert s[k] == a[k] && u[k] == b[k];
    } else if |a| < |b| {
      assert s[|a|] == '/' && u[|a|] == b[|a|] && b[|a|] in b;
    } else {
      assert u[|b|] == '/' && s[|b|] == a[|b|] && a[|b|] in a;
    }
  }
}
