/**
 `create_folder_tree`: the folded path tree printed as indented box-drawing lines under a
 first line "📁 /", one line per node down to a fixed depth.
 */
module FolderTree {
  import opened Text
  import opened Results
  import opened PathTree

  /** `print_tree` returns as soon as its depth exceeds this. */
  const MaxPrintDepth: nat := 6

  const FolderIcon: char := '\U{1F4C1}'
  const PageIcon: char := '\U{1F4C4}'

  /** The first line of the listing. */
  const RootLine: string := [FolderIcon, ' ', '/']

  /** The branch drawn before a node: a corner for the last child of its parent, a tee for any other. */
  function Connector(last: bool): string {
    if last then "└── " else "├── "
  }

  /** What the children of a node are indented by: blank below a last child, a vertical bar below any other. */
  function Extension(last: bool): string {
    if last then "    " else "│   "
  }

  /** The icon of a node: a folder exactly when the node has children, a page otherwise. */
  function Icon(t: Tree): char {
    if t.children != [] then FolderIcon else PageIcon
  }

  /** No name anywhere in the tree contains `c`. */
  predicate NamesWithout(t: Tree, c: char)
    decreases t
  {
    forall k :: 0 <= k < |t.children| ==> c !in t.children[k].name && NamesWithout(t.children[k].sub, c)
  }

  /** The lines `print_tree` appends for the children of `t` below `prefix`, in order. */
  function PrintTree(t: Tree, prefix: string, depth: nat): (lines: seq<string>)
    ensures forall k :: 0 <= k < |lines| ==> prefix <= lines[k]
    ensures '\n' !in prefix && NamesWithout(t, '\n') ==> forall k :: 0 <= k < |lines| ==> '\n' !in lines[k]
    decreases t, 1
  {
    if depth > MaxPrintDepth then [] else PrintItems(t, 0, prefix, depth)
  }

  /** The lines of the children of `t` from position `i` on, each followed by its own subtree. */
  function PrintItems(t: Tree, i: nat, prefix: string, depth: nat): (lines: seq<string>)
    requires i <= |t.children|
    ensures forall k :: 0 <= k < |lines| ==> prefix <= lines[k]
    ensures '\n' !in prefix && NamesWithout(t, '\n') ==> forall k :: 0 <= k < |lines| ==> '\n' !in lines[k]
    decreases t, 0, |t.children| - i
  {
    if i == |t.children| then []
    else
      var node := t.children[i];
      var last := i == |t.children| - 1;
      var line := prefix + Connector(last) + [Icon(node.sub), ' '] + node.name;
      var below := if node.sub.children != [] then PrintTree(node.sub, prefix + Extension(last), depth + 1) else [];
      var rest := PrintItems(t, i + 1, prefix, depth);
      assert forall k :: 0 <= k < |below| ==> prefix <= prefix + Extension(last) <= below[k];
      [line] + below + rest
  }

  /** The listing: the root line, then the printed lines, separated by line breaks. */
  function FolderTreeText(t: Tree): string {
    Join([RootLine] + PrintTree(t, "", 0), "\n")
  }

  /** `create_folder_tree` on the URL paths. */
  function CreateFolderTree(paths: seq<string>): string {
    FolderTreeText(BuildTree(paths))
  }

  /** How many levels of nodes `print_tree` still prints when called at `depth`. */
  function Levels(depth: nat): nat {
    if depth > MaxPrintDepth then 0 else MaxPrintDepth + 1 - depth
  }

  /** One line per node within the printed levels. */
  lemma {:induction false} PrintTreeCount(t: Tree, prefix: string, depth: nat)
    ensures |PrintTree(t, prefix, depth)| == NodesWithin(t, Levels(depth))
    decreases t, 1
  {
    if depth <= MaxPrintDepth {
      PrintItemsCount(t, 0, prefix, depth);
    }
  }

  lemma {:induction false} PrintItemsCount(t: Tree, i: nat, prefix: string, depth: nat)
    requires i <= |t.children| && depth <= MaxPrintDepth
    ensures |PrintItems(t, i, prefix, depth)| == NodesWithinFrom(t, i, Levels(depth))
    decreases t, 0, |t.children| - i
  {
    if i < |t.children| {
      var node := t.children[i];
      var last := i == |t.children| - 1;
      PrintTreeCount(node.sub, prefix + Extension(last), depth + 1);
      PrintItemsCount(t, i + 1, prefix, depth);
    }
  }

  // ----- What the listing says, line by line -----

  /**
   What one printed line says about its node: for each enclosing node below the root, whether
   it was the last of its siblings (outermost first), whether this node is the last of its
   siblings, whether it is a folder, and its name. The depth is the number of ancestors.
   */
  datatype Line = Line(ancestors: seq<bool>, last: bool, folder: bool, name: string)

  /** The nodes `print_tree` visits, in the order it visits them, under ancestors `ancestors`. */
  function Outline(t: Tree, ancestors: seq<bool>): seq<Line>
    decreases t, 1
  {
    if |ancestors| > MaxPrintDepth then [] else OutlineFrom(t, 0, ancestors)
  }

  function OutlineFrom(t: Tree, i: nat, ancestors: seq<bool>): seq<Line>
    requires i <= |t.children|
    decreases t, 0, |t.children| - i
  {
    if i == |t.children| then []
    else
      var node := t.children[i];
      var last := i == |t.children| - 1;
      var below := if node.sub.children != [] then Outline(node.sub, ancestors + [last]) else [];
      [Line(ancestors, last, node.sub.children != [], node.name)] + below + OutlineFrom(t, i + 1, ancestors)
  }

  /** The indentation in front of a node whose ancestors were last or not last among their siblings. */
  function Indent(ancestors: seq<bool>): string {
    if ancestors == [] then "" else Extension(ancestors[0]) + Indent(ancestors[1..])
  }

  /** One level deeper, the indentation grows by the block of the node just entered. */
  lemma {:induction false} IndentSnoc(ancestors: seq<bool>, last: bool)
    ensures Indent(ancestors + [last]) == Indent(ancestors) + Extension(last)
  {
    if ancestors == [] {
      assert Indent([last]) == Extension(last) + "";
    } else {
      assert (ancestors + [last])[1..] == ancestors[1..] + [last];
      IndentSnoc(ancestors[1..], last);
    }
  }

  /** The text of a line: one indentation block per ancestor, the connector, the icon, a space, the name. */
  function RenderLine(l: Line): string {
    Indent(l.ancestors) + Connector(l.last) + [if l.folder then FolderIcon else PageIcon, ' '] + l.name
  }

  function RenderLines(ls: seq<Line>): (lines: seq<string>)
    ensures |lines| == |ls|
    ensures forall k :: 0 <= k < |ls| ==> lines[k] == RenderLine(ls[k])
  {
    if ls == [] then [] else [RenderLine(ls[0])] + RenderLines(ls[1..])
  }

  lemma {:induction false} RenderLinesAppend(a: seq<Line>, b: seq<Line>)
    ensures RenderLines(a + b) == RenderLines(a) + RenderLines(b)
  {
    if a == [] {
      assert a + b == b;
    } else {
      assert (a + b)[1..] == a[1..] + b;
      RenderLinesAppend(a[1..], b);
    }
  }

  /**
   `print_tree` called with the indentation of `ancestors` prints exactly the rendering of the
   outline: line k is the indentation of node k's ancestors (four spaces below a last child,
   a bar and three spaces below any other), its connector, its icon and its name.
   */
  lemma {:induction false} PrintTreeRenders(t: Tree, ancestors: seq<bool>)
    ensures PrintTree(t, Indent(ancestors), |ancestors|) == RenderLines(Outline(t, ancestors))
    decreases t, 1
  {
    if |ancestors| <= MaxPrintDepth {
      PrintItemsRender(t, 0, ancestors);
    }
  }

  lemma {:induction false} PrintItemsRender(t: Tree, i: nat, ancestors: seq<bool>)
    requires i <= |t.children| && |ancestors| <= MaxPrintDepth
    ensures PrintItems(t, i, Indent(ancestors), |ancestors|) == RenderLines(OutlineFrom(t, i, ancestors))
    decreases t, 0, |t.children| - i
  {
    if i < |t.children| {
      var last := i == |t.children| - 1;
      var item := Line(ancestors, last, t.children[i].sub.children != [], t.children[i].name);
      var belowItems := ChildOutline(t, i, ancestors);
      var restItems := OutlineFrom(t, i + 1, ancestors);
      PrintItemsStep(t, i, ancestors);
      ChildRenders(t, i, ancestors);
      PrintItemsRender(t, i + 1, ancestors);
      assert OutlineFrom(t, i, ancestors) == [item] + belowItems + restItems;
      RenderThree(item, belowItems, restItems);
    }
  }

  /** The outline below child `i`: empty for a page. */
  function ChildOutline(t: Tree, i: nat, ancestors: seq<bool>): seq<Line>
    requires i < |t.children|
    decreases t, 0, |t.children| - i - 1
  {
    if t.children[i].sub.children != [] then Outline(t.children[i].sub, ancestors + [i == |t.children| - 1]) else []
  }

  /** The lines printed below child `i`: empty for a page. */
  function ChildLines(t: Tree, i: nat, ancestors: seq<bool>): seq<string>
    requires i < |t.children|
  {
    var last := i == |t.children| - 1;
    if t.children[i].sub.children != [] then PrintTree(t.children[i].sub, Indent(ancestors) + Extension(last), |ancestors| + 1)
    else []
  }

  lemma PrintItemsStep(t: Tree, i: nat, ancestors: seq<bool>)
    requires i < |t.children|
    ensures PrintItems(t, i, Indent(ancestors), |ancestors|)
         == [RenderLine(Line(ancestors, i == |t.children| - 1, t.children[i].sub.children != [], t.children[i].name))]
          + ChildLines(t, i, ancestors) + PrintItems(t, i + 1, Indent(ancestors), |ancestors|)
  {
  }

  lemma {:induction false} ChildRenders(t: Tree, i: nat, ancestors: seq<bool>)
    requires i < |t.children|
    ensures ChildLines(t, i, ancestors) == RenderLines(ChildOutline(t, i, ancestors))
    decreases t, 0, |t.children| - i - 1
  {
    var last := i == |t.children| - 1;
    if t.children[i].sub.children != [] {
      IndentSnoc(ancestors, last);
      PrintTreeRenders(t.children[i].sub, ancestors + [last]);
    }
  }

  lemma RenderThree(item: Line, below: seq<Line>, rest: seq<Line>)
    ensures RenderLines([item] + below + rest) == [RenderLine(item)] + RenderLines(below) + RenderLines(rest)
  {
    RenderLinesAppend([item] + below, rest);
    RenderLinesAppend([item], below);
  }

  // ----- Reading the listing back -----

  /** Reads one line: indentation blocks, a connector, an icon, a space, the name. */
  function ParseLine(line: string, ancestors: seq<bool>): Option<Line>
    decreases |line|
  {
    if HasAt(line, 0, Extension(true)) then ParseLine(line[4..], ancestors + [true])
    else if HasAt(line, 0, Extension(false)) then ParseLine(line[4..], ancestors + [false])
    else if |line| >= 6 && (line[..4] == Connector(true) || line[..4] == Connector(false))
            && (line[4] == FolderIcon || line[4] == PageIcon) && line[5] == ' ' then
      Some(Line(ancestors, line[..4] == Connector(true), line[4] == FolderIcon, line[6..]))
    else None
  }

  function ParseLines(lines: seq<string>): (parsed: seq<Option<Line>>)
    ensures |parsed| == |lines|
  {
    if lines == [] then [] else [ParseLine(lines[0], [])] + ParseLines(lines[1..])
  }

  function Somes(items: seq<Line>): (wrapped: seq<Option<Line>>)
    ensures |wrapped| == |items|
  {
    if items == [] then [] else [Some(items[0])] + Somes(items[1..])
  }

  /** Indentation blocks are read off one by one, each recording one ancestor. */
  lemma {:induction false} ParseIndent(ancestors: seq<bool>, rest: string, before: seq<bool>)
    ensures ParseLine(Indent(ancestors) + rest, before) == ParseLine(rest, before + ancestors)
  {
    if ancestors == [] {
      assert Indent(ancestors) + rest == rest;
      assert before + ancestors == before;
    } else {
      var ext := Extension(ancestors[0]);
      assert Indent(ancestors) + rest == ext + (Indent(ancestors[1..]) + rest);
      ParseBlock(ancestors[0], Indent(ancestors[1..]) + rest, before);
      ParseIndent(ancestors[1..], rest, before + [ancestors[0]]);
      assert before + [ancestors[0]] + ancestors[1..] == before + ancestors;
    }
  }

  /** One indentation block records whether its ancestor was last. */
  lemma ParseBlock(last: bool, rest: string, before: seq<bool>)
    ensures ParseLine(Extension(last) + rest, before) == ParseLine(rest, before + [last])
  {
    var line := Extension(last) + rest;
    assert line[..4] == Extension(last);
    assert line[4..] == rest;
    if !last {
      assert line[0] != Extension(true)[0];
    }
  }

  /** A rendered line reads back as the line it renders. */
  lemma PrintedLineParses(l: Line)
    ensures ParseLine(RenderLine(l), []) == Some(l)
  {
    var icon := if l.folder then FolderIcon else PageIcon;
    var rest := Connector(l.last) + [icon, ' '] + l.name;
    assert RenderLine(l) == Indent(l.ancestors) + rest;
    ParseIndent(l.ancestors, rest, []);
    assert [] + l.ancestors == l.ancestors;
    assert rest[..4] == Connector(l.last);
    assert rest[0] != ' ' && rest[0] != '│';
    assert !HasAt(rest, 0, Extension(true)) && !HasAt(rest, 0, Extension(false)) by {
      assert rest[..4][0] == rest[0];
    }
    assert rest[4] == icon && rest[5] == ' ' && rest[6..] == l.name;
    assert Connector(true) != Connector(false) by { assert Connector(true)[0] != Connector(false)[0]; }
  }

  lemma {:induction false} ParseRendered(ls: seq<Line>)
    ensures ParseLines(RenderLines(ls)) == Somes(ls)
  {
    if ls != [] {
      PrintedLineParses(ls[0]);
      ParseRendered(ls[1..]);
    }
  }

  /** Every printed line reads back as the node `print_tree` was at when it wrote it, ancestors included. */
  lemma PrintTreeParses(t: Tree, ancestors: seq<bool>)
    ensures ParseLines(PrintTree(t, Indent(ancestors), |ancestors|)) == Somes(Outline(t, ancestors))
  {
    PrintTreeRenders(t, ancestors);
    ParseRendered(Outline(t, ancestors));
  }

  /** `Some` of every parsed line, or `None` if some line is not a tree line. */
  function AllParsed(parsed: seq<Option<Line>>): Option<seq<Line>> {
    if parsed == [] then Some([])
    else if parsed[0].None? then None
    else
      match AllParsed(parsed[1..])
      case Some(rest) => Some([parsed[0].value] + rest)
      case None => None
  }

  lemma {:induction false} AllParsedSomes(items: seq<Line>)
    ensures AllParsed(Somes(items)) == Some(items)
  {
    if items != [] {
      var wrapped := Somes(items);
      assert wrapped[0] == Some(items[0]) && wrapped[1..] == Somes(items[1..]);
      AllParsedSomes(items[1..]);
      assert [items[0]] + items[1..] == items;
    }
  }

  /** Reads a listing: the root line, then one tree line per node. */
  function ReadFolderTree(text: string): Option<seq<Line>> {
    var lines := Split(text, '\n');
    if lines[0] != RootLine then None else AllParsed(ParseLines(lines[1..]))
  }

  /**
   When no name contains a line break, the listing splits into exactly the root line and the
   node lines, and reads back as the nodes within the printed depth, each with its depth,
   whether it is the last of its siblings, whether it is a folder, and its name.
   */
  lemma FolderTreeRoundTrip(t: Tree)
    requires NamesWithout(t, '\n')
    ensures Split(FolderTreeText(t), '\n') == [RootLine] + PrintTree(t, "", 0)
    ensures |Split(FolderTreeText(t), '\n')| == 1 + NodesWithin(t, MaxPrintDepth + 1)
    ensures ReadFolderTree(FolderTreeText(t)) == Some(Outline(t, []))
  {
    var lines := [RootLine] + PrintTree(t, "", 0);
    assert '\n' !in RootLine;
    assert forall k :: 0 <= k < |lines| ==> '\n' !in lines[k] by {
      forall k | 0 <= k < |lines| ensures '\n' !in lines[k] {
        if k > 0 { assert lines[k] == PrintTree(t, "", 0)[k - 1]; }
      }
    }
    SplitJoin(lines, '\n');
    assert Join(lines, "\n") == FolderTreeText(t);
    PrintTreeCount(t, "", 0);
    assert Indent([]) == "";
    PrintTreeParses(t, []);
    assert lines[1..] == PrintTree(t, "", 0);
    AllParsedSomes(Outline(t, []));
  }

  /** Inserting a path whose segments lack `c` adds no name holding `c`. */
  lemma {:induction false} InsertNamesWithout(t: Tree, p: seq<string>, c: char)
    requires NamesWithout(t, c)
    requires forall k :: 0 <= k < |p| ==> c !in p[k]
    ensures NamesWithout(Insert(t, p), c)
    decreases |p|
  {
    if p != [] {
      var t' := Insert(t, p);
      assert forall k :: 0 <= k < |p[1..]| ==> p[1..][k] == p[k + 1];
      match Lookup(Names(t.children), p[0])
      case Some(i) =>
        InsertNamesWithout(t.children[i].sub, p[1..], c);
        forall k | 0 <= k < |t'.children| ensures c !in t'.children[k].name && NamesWithout(t'.children[k].sub, c) {
          if k != i { assert t'.children[k] == t.children[k]; }
        }
      case None =>
        InsertNamesWithout(Empty, p[1..], c);
        forall k | 0 <= k < |t'.children| ensures c !in t'.children[k].name && NamesWithout(t'.children[k].sub, c) {
          if k < |t.children| { assert t'.children[k] == t.children[k]; }
        }
    }
  }

  /** URL paths without `c` fold into a map with no name holding `c`. */
  lemma {:induction false} BuildTreeNamesWithout(paths: seq<string>, c: char)
    requires forall k :: 0 <= k < |paths| ==> c !in paths[k]
    ensures NamesWithout(BuildTree(paths), c)
  {
    if paths != [] {
      var front := paths[..|paths| - 1];
      assert forall k :: 0 <= k < |front| ==> front[k] == paths[k];
      BuildTreeNamesWithout(front, c);
      SegmentsWithout(paths[|paths| - 1], c);
      InsertNamesWithout(BuildTree(front), Segments(paths[|paths| - 1]), c);
    }
  }

  /**
   `create_folder_tree` on URL paths without line breaks: the listing has one line for the root
   and one per node within the depth cap, and it reads back as the outline of the folded map.
   */
  lemma CreateFolderTreeRoundTrip(paths: seq<string>)
    requires forall k :: 0 <= k < |paths| ==> '\n' !in paths[k]
    ensures |Split(CreateFolderTree(paths), '\n')| == 1 + NodesWithin(BuildTree(paths), MaxPrintDepth + 1)
    ensures ReadFolderTree(CreateFolderTree(paths)) == Some(Outline(BuildTree(paths), []))
  {
    BuildTreeNamesWithout(paths, '\n');
    FolderTreeRoundTrip(BuildTree(paths));
  }

  /**
   The listing for the URL paths /x, /x/y, /x/z and /w (for instance /a, /a/b, /a/c, /d) has
   five lines: the root, folder x, its pages y and z (z last), and page w (last).
   */
  lemma FourPathsListing(x: string, y: string, z: string, w: string)
    requires IsSegment(x) && IsSegment(y) && IsSegment(z) && IsSegment(w)
    requires y != z && x != w
    requires '\n' !in x && '\n' !in y && '\n' !in z && '\n' !in w
    ensures |Split(CreateFolderTree(["/" + x, "/" + x + "/" + y, "/" + x + "/" + z, "/" + w]), '\n')| == 5
    ensures ReadFolderTree(CreateFolderTree(["/" + x, "/" + x + "/" + y, "/" + x + "/" + z, "/" + w]))
         == Some([Line([], false, true, x), Line([false], false, false, y), Line([false], true, false, z), Line([], true, false, w)])
  {
    var paths := ["/" + x, "/" + x + "/" + y, "/" + x + "/" + z, "/" + w];
    var t := Tree([Node(x, Tree([Node(y, Empty), Node(z, Empty)])), Node(w, Empty)]);
    FoldFourPaths(x, y, z, w);
    assert CreateFolderTree(paths) == FolderTreeText(t);
    FourPathsOutline(x, y, z, w);
    FolderTreeRoundTrip(t);
  }

  lemma FourPathsOutline(x: string, y: string, z: string, w: string)
    requires '\n' !in x && '\n' !in y && '\n' !in z && '\n' !in w
    ensures var t := Tree([Node(x, Tree([Node(y, Empty), Node(z, Empty)])), Node(w, Empty)]);
      && NamesWithout(t, '\n')
      && NodesWithin(t, MaxPrintDepth + 1) == 4
      && Outline(t, []) == [Line([], false, true, x), Line([false], false, false, y), Line([false], true, false, z), Line([], true, false, w)]
  {
    var inner := Tree([Node(y, Empty), Node(z, Empty)]);
    var t := Tree([Node(x, inner), Node(w, Empty)]);
    assert NamesWithout(inner, '\n');
    assert NamesWithout(t, '\n');
    assert NodesWithin(inner, 6) == 2 by {
      assert NodesWithinFrom(inner, 1, 6) == 1;
    }
    assert NodesWithin(t, 7) == 4 by {
      assert NodesWithinFrom(t, 1, 7) == 1;
    }
    assert Outline(inner, [false]) == [Line([false], false, false, y), Line([false], true, false, z)] by {
      assert OutlineFrom(inner, 1, [false]) == [Line([false], true, false, z)];
    }
    assert Outline(t, []) == [Line([], false, true, x), Line([false], false, false, y), Line([false], true, false, z), Line([], true, false, w)] by {
      assert OutlineFrom(t, 1, []) == [Line([], true, false, w)];
      assert [] + [false] == [false];
    }
  }
}
