/**
 The nested dictionary both tree views build from the URL paths (`create_folder_tree` and
 `create_visual_tree_html`): each path is cut at `/`, empty pieces are dropped, and the pieces
 are walked down from the root, adding a child only when no child of that name exists yet.
 A dictionary keeps insertion order, so a level is modelled as a sequence of named children.
 */
module PathTree {
  import opened Text
  import opened Results

  datatype Tree = Tree(children: seq<Node>)
  datatype Node = Node(name: string, sub: Tree)

  /** The empty map the fold starts from. */
  const Empty: Tree := Tree([])

  /** The pieces that are not empty, in order. */
  function NonEmpty(parts: seq<string>): (kept: seq<string>)
    ensures |kept| <= |parts|
    ensures forall k :: 0 <= k < |kept| ==> kept[k] != "" && kept[k] in parts
  {
    if parts == [] then []
    else if parts[0] == "" then NonEmpty(parts[1..])
    else [parts[0]] + NonEmpty(parts[1..])
  }

  /** The segments of a URL path: the non-empty pieces between its slashes, in order. */
  function Segments(path: string): (segs: seq<string>)
    ensures forall k :: 0 <= k < |segs| ==> segs[k] != "" && '/' !in segs[k]
  {
    NonEmpty(Split(path, '/'))
  }

  /** A sequence of non-empty pieces survives `NonEmpty` unchanged. */
  lemma {:induction false} NonEmptyKeeps(parts: seq<string>)
    requires forall k :: 0 <= k < |parts| ==> parts[k] != ""
    ensures NonEmpty(parts) == parts
  {
    if parts != [] {
      NonEmptyKeeps(parts[1..]);
    }
  }

  /** Filtering a concatenation filters each side. */
  lemma {:induction false} NonEmptyAppend(a: seq<string>, b: seq<string>)
    ensures NonEmpty(a + b) == NonEmpty(a) + NonEmpty(b)
  {
    if a != [] {
      assert (a + b)[0] == a[0];
      assert (a + b)[1..] == a[1..] + b;
      NonEmptyAppend(a[1..], b);
      if a[0] != "" {
        assert NonEmpty(a + b) == [a[0]] + (NonEmpty(a[1..]) + NonEmpty(b));
      }
    } else {
      assert a + b == b;
    }
  }

  /** A single piece is kept exactly when it is not empty. */
  lemma NonEmptyOne(p: string)
    ensures NonEmpty([p]) == if p == "" then [] else [p]
  {
    assert [p][1..] == [];
  }

  /** A text without `/` is one segment, or none when it is empty. */
  lemma SegmentsOfPiece(x: string)
    requires '/' !in x
    ensures Segments(x) == if x == "" then [] else [x]
  {
    SplitOfSepFree(x, '/');
    NonEmptyOne(x);
  }

  /** A character absent from a path is absent from its segments. */
  lemma SegmentsWithout(path: string, c: char)
    requires c !in path
    ensures forall k :: 0 <= k < |Segments(path)| ==> c !in Segments(path)[k]
  {
    var parts := Split(path, '/');
    SplitPiecesWithout(path, '/', c);
    forall k | 0 <= k < |Segments(path)| ensures c !in Segments(path)[k] {
      var j :| 0 <= j < |parts| && parts[j] == Segments(path)[k];
    }
  }

  /** Cutting at a `/` cuts the segments: empty pieces on either side vanish. */
  lemma SegmentsAtSlash(a: string, b: string)
    ensures Segments(a + "/" + b) == Segments(a) + Segments(b)
  {
    assert a + "/" + b == a + (['/'] + b);
    SplitAtSeparator(a, b, '/');
    NonEmptyAppend(Split(a, '/'), Split(b, '/'));
  }

  /** A trailing `/` adds no segment: `/x/` has the one segment `x`. */
  lemma SegmentsTrailingSlash(x: string)
    requires IsSegment(x)
    ensures Segments("/" + x + "/") == [x]
  {
    SegmentsAtSlash("", x + "/" + "");
    assert "" + "/" + (x + "/" + "") == "/" + x + "/";
    SegmentsAtSlash(x, "");
    SegmentsOfPiece("");
    SegmentsOfPiece(x);
  }

  /** A relative path `x/y` has the same segments as the absolute `/x/y`. */
  lemma SegmentsRelative(x: string, y: string)
    requires IsSegment(x) && IsSegment(y)
    ensures Segments(x + "/" + y) == [x, y]
  {
    SegmentsAtSlash(x, y);
    SegmentsOfPiece(x);
    SegmentsOfPiece(y);
  }

  /** Writing segments out as an absolute path and cutting it again gives the same segments. */
  lemma SegmentsOfJoined(segs: seq<string>)
    requires forall k :: 0 <= k < |segs| ==> segs[k] != "" && '/' !in segs[k]
    ensures Segments("/" + Join(segs, "/")) == segs
  {
    if segs == [] {
      assert "/" + Join(segs, "/") == "/";
      assert Split("/", '/') == [""] + Split("", '/');
    } else {
      SplitAfterPiece("", Join(segs, "/"), '/');
      assert "" + ("/" + Join(segs, "/")) == "/" + Join(segs, "/");
      SplitJoin(segs, '/');
      NonEmptyKeeps(segs);
    }
  }

  /** The names of a level, in insertion order. */
  function Names(children: seq<Node>): (names: seq<string>)
    ensures |names| == |children|
    ensures forall k :: 0 <= k < |children| ==> names[k] == children[k].name
  {
    seq(|children|, k requires 0 <= k < |children| => children[k].name)
  }

  /** Position of the child called `name`, if any: the first one. */
  function Lookup(names: seq<string>, name: string): (r: Option<nat>)
    ensures r.Some? ==> r.value < |names| && names[r.value] == name
                        && forall j :: 0 <= j < r.value ==> names[j] != name
    ensures r.None? <==> name !in names
  {
    if names == [] then None
    else if names[0] == name then Some(0)
    else
      var rest := Lookup(names[1..], name);
      if rest.Some? then Some(rest.value + 1) else None
  }

  /**
   The walk for one path: at each level, a segment that is not yet a child is added as a new
   last child with an empty map, and the walk steps into that child.
   */
  function Insert(t: Tree, path: seq<string>): (r: Tree)
    ensures |t.children| <= |r.children| <= |t.children| + 1
    ensures path == [] ==> r == t
    decreases |path|
  {
    if path == [] then t
    else
      var name := path[0];
      match Lookup(Names(t.children), name)
      case Some(i) =>
        var updated := Tree(t.children[i := Node(name, Insert(t.children[i].sub, path[1..]))]);
        assert Names(updated.children)[i] == name;
        updated
      case None =>
        var added := Tree(t.children + [Node(name, Insert(Empty, path[1..]))]);
        assert Names(added.children)[|t.children|] == name;
        added
  }

  /** Following `path` from the root of `t` reaches a node (the root itself for the empty path). */
  predicate HasPath(t: Tree, path: seq<string>)
    decreases |path|
  {
    path == [] ||
    match Lookup(Names(t.children), path[0])
    case Some(i) => HasPath(t.children[i].sub, path[1..])
    case None => false
  }

  /** The folding loop over all URL paths: each path adds at most one top-level child. */
  function BuildTree(paths: seq<string>): (t: Tree)
    ensures |t.children| <= |paths|
  {
    if paths == [] then Empty
    else Insert(BuildTree(paths[..|paths| - 1]), Segments(paths[|paths| - 1]))
  }

  predicate DistinctNames(children: seq<Node>) {
    forall j, k :: 0 <= j < k < |children| ==> children[j].name != children[k].name
  }

  /** Every level has pairwise different names, as the keys of a dictionary do. */
  predicate WellFormed(t: Tree)
    decreases t
  {
    && DistinctNames(t.children)
    && forall k :: 0 <= k < |t.children| ==> WellFormed(t.children[k].sub)
  }

  lemma {:induction false} EmptyHasOnlyRoot(q: seq<string>)
    ensures HasPath(Empty, q) <==> q == []
  {
  }

  /** After inserting `p`, the paths present are the old ones and the prefixes of `p`. */
  lemma {:induction false} InsertHasPath(t: Tree, p: seq<string>, q: seq<string>)
    ensures HasPath(Insert(t, p), q) <==> HasPath(t, q) || q <= p
    decreases |p|
  {
    if p != [] && q != [] {
      var name := p[0];
      var names := Names(t.children);
      var t' := Insert(t, p);
      match Lookup(names, name)
      case Some(i) =>
        assert Names(t'.children) == names;
        if q[0] == name {
          InsertHasPath(t.children[i].sub, p[1..], q[1..]);
          assert q <= p <==> q[1..] <= p[1..];
        } else {
          var l := Lookup(names, q[0]);
          if l.Some? {
            assert t'.children[l.value] == t.children[l.value];
          }
        }
      case None =>
        assert Names(t'.children) == names + [name];
        LookupAppend(names, name, q[0]);
        if q[0] == name {
          InsertHasPath(Empty, p[1..], q[1..]);
          EmptyHasOnlyRoot(q[1..]);
          assert q <= p <==> q[1..] <= p[1..];
        } else {
          var l := Lookup(names, q[0]);
          if l.Some? {
            assert t'.children[l.value] == t.children[l.value];
          }
        }
    }
  }

  /** A new name goes last; the positions of the others do not move. */
  lemma LookupAppend(names: seq<string>, name: string, key: string)
    requires name !in names
    ensures Lookup(names + [name], key) == if key == name then Some(|names|) else Lookup(names, key)
  {
    var r := Lookup(names + [name], key);
    var a := Lookup(names, key);
    if key == name {
      assert (names + [name])[|names|] == name;
    } else if r.Some? {
      assert r.value != |names|;
      assert names[r.value] == (names + [name])[r.value];
      assert (names + [name])[a.value] == names[a.value];
    }
  }

  /** Inserting a path that is already present changes nothing. */
  lemma {:induction false} InsertExisting(t: Tree, p: seq<string>)
    requires HasPath(t, p)
    ensures Insert(t, p) == t
    decreases |p|
  {
    if p != [] {
      var i := Lookup(Names(t.children), p[0]).value;
      InsertExisting(t.children[i].sub, p[1..]);
      assert t.children[i] == Node(p[0], t.children[i].sub);
    }
  }

  /** Inserting the same path twice is the same as inserting it once. */
  lemma InsertIdempotent(t: Tree, p: seq<string>)
    ensures Insert(Insert(t, p), p) == Insert(t, p)
  {
    InsertHasPath(t, p, p);
    InsertExisting(Insert(t, p), p);
  }

  /** The names of the top level after an insertion: the old ones in place, then possibly the new first segment. */
  lemma InsertNames(t: Tree, p: seq<string>)
    ensures Names(Insert(t, p).children)
         == Names(t.children) + if p != [] && p[0] !in Names(t.children) then [p[0]] else []
  {
    if p != [] {
      var t' := Insert(t, p);
      if p[0] in Names(t.children) {
        assert Names(t'.children) == Names(t.children);
      } else {
        assert Names(t'.children) == Names(t.children) + [p[0]];
      }
    }
  }

  /** The level reached by following `q` from the root, if `q` is present. */
  function At(t: Tree, q: seq<string>): (r: Option<Tree>)
    ensures r.Some? <==> HasPath(t, q)
    decreases |q|
  {
    if q == [] then Some(t)
    else
      match Lookup(Names(t.children), q[0])
      case Some(i) => At(t.children[i].sub, q[1..])
      case None => None
  }

  /** The names on the level reached by `q`; none when `q` is not present. */
  function LevelNames(t: Tree, q: seq<string>): seq<string> {
    var level := At(t, q);
    if level.Some? then Names(level.value.children) else []
  }

  /**
   On every level the walk for `p` passes through, the names after the insertion are the old
   ones in place, then `p`'s segment for that level when it was not there yet.
   */
  lemma {:induction false} InsertLevelNames(t: Tree, p: seq<string>, d: nat)
    requires d < |p|
    ensures At(Insert(t, p), p[..d]).Some?
    ensures LevelNames(Insert(t, p), p[..d])
         == LevelNames(t, p[..d]) + if p[d] !in LevelNames(t, p[..d]) then [p[d]] else []
    decreases d, 1
  {
    if d == 0 {
      assert p[..0] == [];
      InsertNames(t, p);
    } else if p[0] in Names(t.children) {
      InsertLevelNamesFound(t, p, d);
    } else {
      InsertLevelNamesFresh(t, p, d);
    }
  }

  /** The walk goes through an existing child: the levels below are those of that child. */
  lemma {:induction false} InsertLevelNamesFound(t: Tree, p: seq<string>, d: nat)
    requires 0 < d < |p| && p[0] in Names(t.children)
    ensures At(Insert(t, p), p[..d]).Some?
    ensures LevelNames(Insert(t, p), p[..d])
         == LevelNames(t, p[..d]) + if p[d] !in LevelNames(t, p[..d]) then [p[d]] else []
    decreases d, 0
  {
    var i := Lookup(Names(t.children), p[0]).value;
    var t' := Insert(t, p);
    var sub := t.children[i].sub;
    assert t'.children == t.children[i := Node(p[0], Insert(sub, p[1..]))];
    assert Names(t'.children) == Names(t.children);
    InsertLevelNames(sub, p[1..], d - 1);
    var q := p[..d];
    assert q[0] == p[0] && q[1..] == p[1..][..d - 1];
    assert At(t', q) == At(Insert(sub, p[1..]), q[1..]);
    assert At(t, q) == At(sub, q[1..]);
    assert p[1..][d - 1] == p[d];
  }

  /** The walk adds a new last child: every level below it starts out empty. */
  lemma {:induction false} InsertLevelNamesFresh(t: Tree, p: seq<string>, d: nat)
    requires 0 < d < |p| && p[0] !in Names(t.children)
    ensures At(Insert(t, p), p[..d]).Some?
    ensures LevelNames(Insert(t, p), p[..d])
         == LevelNames(t, p[..d]) + if p[d] !in LevelNames(t, p[..d]) then [p[d]] else []
    decreases d, 0
  {
    var n := |t.children|;
    var t' := Insert(t, p);
    assert t'.children == t.children + [Node(p[0], Insert(Empty, p[1..]))];
    assert Names(t'.children) == Names(t.children) + [p[0]];
    LookupAppend(Names(t.children), p[0], p[0]);
    InsertLevelNames(Empty, p[1..], d - 1);
    EmptyLevelNames(p[1..][..d - 1]);
    var q := p[..d];
    assert q[0] == p[0] && q[1..] == p[1..][..d - 1];
    assert At(t', q) == At(Insert(Empty, p[1..]), q[1..]);
    assert At(t, q) == None;
    assert p[1..][d - 1] == p[d];
  }

  lemma EmptyLevelNames(q: seq<string>)
    ensures LevelNames(Empty, q) == []
  {
  }

  /** Insertion keeps every level free of repeated names. */
  lemma {:induction false} InsertWellFormed(t: Tree, p: seq<string>)
    requires WellFormed(t)
    ensures WellFormed(Insert(t, p))
    decreases |p|
  {
    if p != [] {
      var name := p[0];
      var names := Names(t.children);
      var t' := Insert(t, p);
      match Lookup(names, name)
      case Some(i) =>
        InsertWellFormed(t.children[i].sub, p[1..]);
        assert Names(t'.children) == names;
        forall k | 0 <= k < |t'.children| ensures WellFormed(t'.children[k].sub) {
          if k != i { assert t'.children[k] == t.children[k]; }
        }
      case None =>
        InsertWellFormed(Empty, p[1..]);
        forall k | 0 <= k < |t'.children| ensures WellFormed(t'.children[k].sub) {
          if k < |t.children| { assert t'.children[k] == t.children[k]; }
        }
        forall j, k | 0 <= j < k < |t'.children| ensures t'.children[j].name != t'.children[k].name {
          if k == |t.children| { assert names[j] == t.children[j].name; }
        }
    }
  }

  /** The folded tree has pairwise different names on every level. */
  lemma {:induction false} BuildTreeWellFormed(paths: seq<string>)
    ensures WellFormed(BuildTree(paths))
  {
    if paths != [] {
      BuildTreeWellFormed(paths[..|paths| - 1]);
      InsertWellFormed(BuildTree(paths[..|paths| - 1]), Segments(paths[|paths| - 1]));
    }
  }

  /** A non-empty segment path is in the folded tree exactly when it starts one of the URL paths. */
  lemma {:induction false} BuildTreeHasPath(paths: seq<string>, q: seq<string>)
    requires q != []
    ensures HasPath(BuildTree(paths), q) <==> StartsSome(paths, q)
  {
    if paths == [] {
      EmptyHasOnlyRoot(q);
    } else {
      var front := paths[..|paths| - 1];
      var last := paths[|paths| - 1];
      BuildTreeHasPath(front, q);
      InsertHasPath(BuildTree(front), Segments(last), q);
      StartsSomeLast(paths, front, q);
    }
  }

  /** A path of the URL list starts with `q`. */
  predicate StartsSome(paths: seq<string>, q: seq<string>) {
    exists k :: 0 <= k < |paths| && q <= Segments(paths[k])
  }

  /** Some path starts with `q` exactly when an earlier one does or the last one does. */
  lemma StartsSomeLast(paths: seq<string>, front: seq<string>, q: seq<string>)
    requires paths != [] && front == paths[..|paths| - 1]
    ensures StartsSome(paths, q) <==> StartsSome(front, q) || q <= Segments(paths[|paths| - 1])
  {
    if StartsSome(front, q) {
      StartsSomeGrows(paths, front, q);
    }
    if StartsSome(paths, q) {
      StartsSomeSplits(paths, front, q);
    }
  }

  lemma StartsSomeGrows(paths: seq<string>, front: seq<string>, q: seq<string>)
    requires paths != [] && front == paths[..|paths| - 1] && StartsSome(front, q)
    ensures StartsSome(paths, q)
  {
    var k :| 0 <= k < |front| && q <= Segments(front[k]);
    assert paths[k] == front[k];
  }

  lemma StartsSomeSplits(paths: seq<string>, front: seq<string>, q: seq<string>)
    requires paths != [] && front == paths[..|paths| - 1] && StartsSome(paths, q)
    ensures StartsSome(front, q) || q <= Segments(paths[|paths| - 1])
  {
    var k :| 0 <= k < |paths| && q <= Segments(paths[k]);
    if k < |front| {
      assert front[k] == paths[k];
      assert StartsSome(front, q);
    } else {
      assert k == |paths| - 1;
    }
  }

  /** How many nodes lie within `levels` levels below the root (the root not counted). */
  function NodesWithin(t: Tree, levels: nat): nat
    decreases t, 1
  {
    if levels == 0 then 0 else NodesWithinFrom(t, 0, levels)
  }

  /** The nodes within `levels` levels under the children of `t` from position `i` on. */
  function NodesWithinFrom(t: Tree, i: nat, levels: nat): nat
    requires i <= |t.children|
    decreases t, 0, |t.children| - i
  {
    if i == |t.children| || levels == 0 then 0
    else 1 + NodesWithin(t.children[i].sub, levels - 1) + NodesWithinFrom(t, i + 1, levels)
  }

  /** A one-segment path that is not there yet becomes a new last child without children. */
  lemma InsertLeaf(t: Tree, name: string)
    requires name !in Names(t.children)
    ensures Insert(t, [name]) == Tree(t.children + [Node(name, Empty)])
  {
    assert [name][1..] == [];
  }

  /** A path whose first segment is not there yet becomes a new last child holding the rest. */
  lemma InsertFresh(t: Tree, name: string, rest: seq<string>)
    requires name !in Names(t.children)
    ensures Insert(t, [name] + rest) == Tree(t.children + [Node(name, Insert(Empty, rest))])
  {
    assert ([name] + rest)[1..] == rest;
  }

  /** Walking through an existing child rebuilds only that child. */
  lemma InsertUnderChild(t: Tree, i: nat, name: string, rest: seq<string>)
    requires i < |t.children| && t.children[i].name == name && DistinctNames(t.children)
    ensures Insert(t, [name] + rest) == Tree(t.children[i := Node(name, Insert(t.children[i].sub, rest))])
  {
    assert ([name] + rest)[1..] == rest;
    var l := Lookup(Names(t.children), name);
    assert l.Some?;
  }

  /** Folding one more path inserts its segments into the tree of the earlier paths. */
  lemma BuildTreeSnoc(paths: seq<string>, p: string)
    ensures BuildTree(paths + [p]) == Insert(BuildTree(paths), Segments(p))
  {
    assert (paths + [p])[..|paths|] == paths;
  }

  /** A name that is a single segment. */
  predicate IsSegment(x: string) {
    x != "" && '/' !in x
  }

  lemma SegmentsOfOne(x: string)
    requires IsSegment(x)
    ensures Segments("/" + x) == [x]
  {
    SegmentsOfJoined([x]);
  }

  lemma SegmentsOfTwo(x: string, y: string)
    requires IsSegment(x) && IsSegment(y)
    ensures Segments("/" + x + "/" + y) == [x] + [y]
  {
    SegmentsOfJoined([x, y]);
    assert [x, y][1..] == [y];
    assert Join([x, y], "/") == x + ("/" + y);
    assert "/" + x + "/" + y == "/" + Join([x, y], "/");
  }

  lemma FoldOnePath(x: string)
    requires IsSegment(x)
    ensures BuildTree(["/" + x]) == Tree([Node(x, Empty)])
  {
    assert BuildTree(["/" + x]) == Insert(Empty, [x]) by {
      BuildTreeSnoc([], "/" + x);
      assert [] + ["/" + x] == ["/" + x];
      SegmentsOfOne(x);
    }
    assert Insert(Empty, [x]) == Tree([Node(x, Empty)]) by {
      InsertLeaf(Empty, x);
      assert Empty.children + [Node(x, Empty)] == [Node(x, Empty)];
    }
  }

  /** Walking into the only child `x` rebuilds just that child. */
  lemma InsertUnderOnly(x: string, sub: Tree, rest: seq<string>)
    ensures Insert(Tree([Node(x, sub)]), [x] + rest) == Tree([Node(x, Insert(sub, rest))])
  {
    var t := Tree([Node(x, sub)]);
    InsertUnderChild(t, 0, x, rest);
    assert t.children[0 := Node(x, Insert(sub, rest))] == [Node(x, Insert(sub, rest))];
  }

  lemma FoldTwoPaths(x: string, y: string)
    requires IsSegment(x) && IsSegment(y)
    ensures BuildTree(["/" + x, "/" + x + "/" + y]) == Tree([Node(x, Tree([Node(y, Empty)]))])
  {
    var p1, p2 := "/" + x, "/" + x + "/" + y;
    var t1 := Tree([Node(x, Empty)]);
    assert BuildTree([p1, p2]) == Insert(t1, [x] + [y]) by {
      FoldOnePath(x);
      BuildTreeSnoc([p1], p2);
      assert [p1] + [p2] == [p1, p2];
      SegmentsOfTwo(x, y);
    }
    assert Insert(t1, [x] + [y]) == Tree([Node(x, Insert(Empty, [y]))]) by {
      InsertUnderOnly(x, Empty, [y]);
    }
    assert Insert(Empty, [y]) == Tree([Node(y, Empty)]) by {
      FoldOnePathTree(y);
    }
  }

  lemma FoldOnePathTree(y: string)
    ensures Insert(Empty, [y]) == Tree([Node(y, Empty)])
  {
    InsertLeaf(Empty, y);
    assert Empty.children + [Node(y, Empty)] == [Node(y, Empty)];
  }

  lemma FoldThreePaths(x: string, y: string, z: string)
    requires IsSegment(x) && IsSegment(y) && IsSegment(z) && y != z
    ensures BuildTree(["/" + x, "/" + x + "/" + y, "/" + x + "/" + z])
         == Tree([Node(x, Tree([Node(y, Empty), Node(z, Empty)]))])
  {
    var p1, p2, p3 := "/" + x, "/" + x + "/" + y, "/" + x + "/" + z;
    var by1 := Node(y, Empty);
    var bz := Node(z, Empty);
    var t2 := Tree([Node(x, Tree([by1]))]);
    assert BuildTree([p1, p2, p3]) == Insert(t2, [x] + [z]) by {
      FoldTwoPaths(x, y);
      BuildTreeSnoc([p1, p2], p3);
      assert [p1, p2] + [p3] == [p1, p2, p3];
      SegmentsOfTwo(x, z);
    }
    assert Insert(t2, [x] + [z]) == Tree([Node(x, Insert(Tree([by1]), [z]))]) by {
      InsertUnderOnly(x, Tree([by1]), [z]);
    }
    assert Insert(Tree([by1]), [z]) == Tree([by1, bz]) by {
      assert Names([by1]) == [y];
      InsertLeaf(Tree([by1]), z);
      assert [by1] + [bz] == [by1, bz];
    }
  }

  /**
   The folded tree of /x, /x/y, /x/z and /w: the two pages under x are merged into one folder,
   in the order they came.
   */
  lemma FoldFourPaths(x: string, y: string, z: string, w: string)
    requires IsSegment(x) && IsSegment(y) && IsSegment(z) && IsSegment(w)
    requires y != z && x != w
    ensures BuildTree(["/" + x, "/" + x + "/" + y, "/" + x + "/" + z, "/" + w])
         == Tree([Node(x, Tree([Node(y, Empty), Node(z, Empty)])), Node(w, Empty)])
  {
    var p1, p2, p3, p4 := "/" + x, "/" + x + "/" + y, "/" + x + "/" + z, "/" + w;
    var t3 := Tree([Node(x, Tree([Node(y, Empty), Node(z, Empty)]))]);
    FoldThreePaths(x, y, z);
    BuildTreeSnoc([p1, p2, p3], p4);
    assert [p1, p2, p3] + [p4] == [p1, p2, p3, p4];
    SegmentsOfOne(w);
    assert Names(t3.children) == [x];
    InsertLeaf(t3, w);
  }

  /** The folded tree of /a/x and /b/x: two folders, each holding its own page x. */
  lemma FoldSiblingFolders(a: string, b: string, x: string)
    requires IsSegment(a) && IsSegment(b) && IsSegment(x) && a != b
    ensures BuildTree(["/" + a + "/" + x, "/" + b + "/" + x])
         == Tree([Node(a, Tree([Node(x, Empty)])), Node(b, Tree([Node(x, Empty)]))])
  {
    var p1, p2 := "/" + a + "/" + x, "/" + b + "/" + x;
    FoldOneDeepPath(a, x);
    BuildTreeSnoc([p1], p2);
    assert [p1] + [p2] == [p1, p2];
    SegmentsOfTwo(b, x);
    AddSiblingFolder(a, b, x);
  }

  lemma FoldOneDeepPath(a: string, x: string)
    requires IsSegment(a) && IsSegment(x)
    ensures BuildTree(["/" + a + "/" + x]) == Tree([Node(a, Tree([Node(x, Empty)]))])
  {
    var p1 := "/" + a + "/" + x;
    var leaf := Tree([Node(x, Empty)]);
    BuildTreeSnoc([], p1);
    assert [] + [p1] == [p1];
    SegmentsOfTwo(a, x);
    InsertFresh(Empty, a, [x]);
    FoldOnePathTree(x);
    assert Empty.children + [Node(a, leaf)] == [Node(a, leaf)];
  }

  lemma AddSiblingFolder(a: string, b: string, x: string)
    requires a != b
    ensures Insert(Tree([Node(a, Tree([Node(x, Empty)]))]), [b] + [x])
         == Tree([Node(a, Tree([Node(x, Empty)])), Node(b, Tree([Node(x, Empty)]))])
  {
    var leaf := Tree([Node(x, Empty)]);
    var t1 := Tree([Node(a, leaf)]);
    assert Names(t1.children) == [a];
    InsertFresh(t1, b, [x]);
    FoldOnePathTree(x);
    assert t1.children + [Node(b, leaf)] == [Node(a, leaf), Node(b, leaf)];
  }
}
