/** `print_tree` (tree_sitter_example_simple.py): an indented pre-order
    rendering of a syntax tree, one line per node. The lines are returned
    instead of being written to standard output. */
module PrintTree {
  import opened Wrappers
  import opened Text
  import opened SyntaxTree

  /** The lines `print_tree(node, indent)` prints, in order: the node's type
      after `indent` spaces, then each child rendered two columns further in. */
  function Lines(node: Node, indent: nat): (r: seq<string>)
    ensures |r| == Size(node)
    decreases node, 1
  {
    [Spaces(indent) + node.kind] + LinesForest(node.children, indent + 2)
  }

  /** The `for child in node.children` loop of `print_tree`. */
  function LinesForest(cs: seq<Node>, indent: nat): (r: seq<string>)
    ensures |r| == SizeForest(cs)
    decreases cs, 0
  {
    if |cs| == 0 then [] else Lines(cs[0], indent) + LinesForest(cs[1..], indent)
  }

  /** The top-level call `print_tree(tree.root_node)`, with the default indent. */
  function PrintTree(root: Node): seq<string> {
    Lines(root, 0)
  }

  /*
   * Addresses: a node of the subtree is reached from its root by a path of
   * child indices. The depth of a node below the root is the length of its path.
   */

  /** The node a path of child indices leads to, if there is one. */
  function At(n: Node, p: seq<nat>): Option<Node>
    decreases |p|
  {
    if |p| == 0 then Some(n)
    else if p[0] < |n.children| then At(n.children[p[0]], p[1..])
    else None
  }

  /** Every path of `ps`, extended in front by the child index `j`. */
  function Under(j: nat, ps: seq<seq<nat>>): seq<seq<nat>> {
    seq(|ps|, k requires 0 <= k < |ps| => [j] + ps[k])
  }

  /** The paths of the subtree's nodes, in pre-order. */
  function Paths(n: Node): (r: seq<seq<nat>>)
    ensures |r| == Size(n)
    decreases n, 1
  {
    [[]] + PathsForest(n.children, 0)
  }

  /** The paths into a run of siblings whose first one has child index `first`. */
  function PathsForest(cs: seq<Node>, first: nat): (r: seq<seq<nat>>)
    ensures |r| == SizeForest(cs)
    decreases cs, 0
  {
    if |cs| == 0 then [] else Under(first, Paths(cs[0])) + PathsForest(cs[1..], first + 1)
  }

  /** The `k`-th path leads to the `k`-th node of the pre-order walk; only the
      root has the empty path. */
  lemma {:induction false} PathsAddressPreOrder(n: Node)
    ensures forall k :: 0 <= k < Size(n) ==> At(n, Paths(n)[k]) == Some(PreOrder(n)[k])
    ensures Paths(n)[0] == []
    ensures forall k :: 0 < k < Size(n) ==> |Paths(n)[k]| >= 1
    decreases n, 1
  {
    var ps := PathsForest(n.children, 0);
    var P := PreOrderForest(n.children);
    PathsForestAddress(n.children, 0);
    assert Paths(n) == [[]] + ps;
    assert PreOrder(n) == [n] + P;
    forall k | 0 < k < Size(n)
      ensures At(n, Paths(n)[k]) == Some(PreOrder(n)[k])
    {
      var p := ps[k - 1];
      assert Paths(n)[k] == p;
      assert At(n, p) == At(n.children[p[0]], p[1..]);
    }
  }

  lemma {:induction false} PathsForestAddress(cs: seq<Node>, first: nat)
    ensures forall k :: 0 <= k < SizeForest(cs) ==>
      var p := PathsForest(cs, first)[k];
      && |p| >= 1
      && first <= p[0] < first + |cs|
      && At(cs[p[0] - first], p[1..]) == Some(PreOrderForest(cs)[k])
    decreases cs, 0
  {
    if |cs| > 0 {
      PathsAddressPreOrder(cs[0]);
      PathsForestAddress(cs[1..], first + 1);
      var head := Under(first, Paths(cs[0]));
      var tail := PathsForest(cs[1..], first + 1);
      assert PathsForest(cs, first) == head + tail;
      assert PreOrderForest(cs) == PreOrder(cs[0]) + PreOrderForest(cs[1..]);
      forall k | 0 <= k < SizeForest(cs)
        ensures var p := PathsForest(cs, first)[k];
          && |p| >= 1
          && first <= p[0] < first + |cs|
          && At(cs[p[0] - first], p[1..]) == Some(PreOrderForest(cs)[k])
      {
        var p := PathsForest(cs, first)[k];
        if k < |head| {
          assert p == [first] + Paths(cs[0])[k];
          assert p[1..] == Paths(cs[0])[k];
        } else {
          assert p == tail[k - |head|];
          assert cs[1..][p[0] - (first + 1)] == cs[p[0] - first];
        }
      }
    }
  }

  /** Line `k` is the `k`-th node of the pre-order walk, its type indented by
      the starting indent plus two columns per level below the starting node. */
  lemma {:induction false} LinesArePreOrderIndented(n: Node, indent: nat)
    ensures forall k :: 0 <= k < Size(n) ==>
      Lines(n, indent)[k] == Spaces(indent + 2 * |Paths(n)[k]|) + PreOrder(n)[k].kind
    decreases n, 1
  {
    LinesForestIndented(n.children, indent + 2, 0);
    assert Lines(n, indent) == [Spaces(indent) + n.kind] + LinesForest(n.children, indent + 2);
    assert Paths(n) == [[]] + PathsForest(n.children, 0);
    assert PreOrder(n) == [n] + PreOrderForest(n.children);
    forall k | 0 < k < Size(n)
      ensures Lines(n, indent)[k] == Spaces(indent + 2 * |Paths(n)[k]|) + PreOrder(n)[k].kind
    {
      var p := PathsForest(n.children, 0)[k - 1];
      assert indent + 2 * |p| == indent + 2 + 2 * (|p| - 1);
    }
  }

  lemma {:induction false} LinesForestIndented(cs: seq<Node>, indent: nat, first: nat)
    ensures forall k :: 0 <= k < SizeForest(cs) ==>
      |PathsForest(cs, first)[k]| >= 1 &&
      LinesForest(cs, indent)[k] ==
        Spaces(indent + 2 * (|PathsForest(cs, first)[k]| - 1)) + PreOrderForest(cs)[k].kind
    decreases cs, 0
  {
    if |cs| > 0 {
      LinesArePreOrderIndented(cs[0], indent);
      LinesForestIndented(cs[1..], indent, first + 1);
      var head := Under(first, Paths(cs[0]));
      assert PathsForest(cs, first) == head + PathsForest(cs[1..], first + 1);
      assert LinesForest(cs, indent) == Lines(cs[0], indent) + LinesForest(cs[1..], indent);
      assert PreOrderForest(cs) == PreOrder(cs[0]) + PreOrderForest(cs[1..]);
    }
  }

  /** Reading a printed line back: when the node's type does not begin with a
      space, the line's leading spaces give the node's depth below the starting
      node, and the rest of the line is the node's type. */
  lemma ReadBackLine(n: Node, indent: nat, k: nat)
    requires k < Size(n)
    requires |PreOrder(n)[k].kind| == 0 || PreOrder(n)[k].kind[0] != ' '
    ensures LeadingSpaces(Lines(n, indent)[k]) == indent + 2 * |Paths(n)[k]|
    ensures Lines(n, indent)[k][LeadingSpaces(Lines(n, indent)[k])..] == PreOrder(n)[k].kind
  {
    LinesArePreOrderIndented(n, indent);
    LeadingSpacesOfIndented(indent + 2 * |Paths(n)[k]|, PreOrder(n)[k].kind);
  }

  /** Run `a` of siblings is rendered before run `b`. */
  lemma {:induction false} LinesForestAppend(a: seq<Node>, b: seq<Node>, indent: nat)
    ensures LinesForest(a + b, indent) == LinesForest(a, indent) + LinesForest(b, indent)
  {
    if |a| == 0 {
      assert a + b == b;
    } else {
      assert (a + b)[1..] == a[1..] + b;
      LinesForestAppend(a[1..], b, indent);
    }
  }

  /** Compositionality: the lines of child `j` form one contiguous block two
      columns further in, right after the node's own line and the blocks of the
      children before it. */
  lemma ChildBlock(n: Node, indent: nat, j: nat)
    requires j < |n.children|
    ensures var off := 1 + SizeForest(n.children[..j]);
      off + Size(n.children[j]) <= Size(n) &&
      Lines(n, indent)[off .. off + Size(n.children[j])] == Lines(n.children[j], indent + 2)
  {
    var cs := n.children;
    assert cs == cs[..j] + cs[j..];
    assert cs[j..] == [cs[j]] + cs[j + 1..];
    LinesForestAppend(cs[..j], cs[j..], indent + 2);
    assert LinesForest(cs[j..], indent + 2) == Lines(cs[j], indent + 2) + LinesForest(cs[j + 1..], indent + 2);
    SizeForestAppend(cs[..j], cs[j..]);
  }

  /** Called on the root with the default indent, the first line is the root's
      type with no indentation, and every later line is indented by at least
      two spaces. */
  lemma PrintTreeFromRoot(root: Node)
    ensures PrintTree(root)[0] == root.kind
    ensures forall k :: 0 < k < |PrintTree(root)| ==>
      |PrintTree(root)[k]| >= 2 && PrintTree(root)[k][..2] == "  "
  {
    LinesArePreOrderIndented(root, 0);
    PathsAddressPreOrder(root);
    forall k | 0 < k < |PrintTree(root)|
      ensures |PrintTree(root)[k]| >= 2 && PrintTree(root)[k][..2] == "  "
    {
      var d := 2 * |Paths(root)[k]|;
      assert PrintTree(root)[k] == Spaces(d) + PreOrder(root)[k].kind;
      assert PrintTree(root)[k][0] == ' ' && PrintTree(root)[k][1] == ' ';
    }
  }

  /*
   * Reading the printed outline back. The lines keep each node's type and its
   * nesting, and drop the byte ranges; an `Outline` is what they can give back.
   */

  datatype Outline = Outline(kind: string, children: seq<Outline>)

  /** The outline of a subtree: its types and nesting. */
  function ShapeOf(n: Node): Outline
    decreases n, 1
  {
    Outline(n.kind, ShapeForest(n.children))
  }

  function ShapeForest(cs: seq<Node>): seq<Outline>
    decreases cs, 0
  {
    if |cs| == 0 then [] else [ShapeOf(cs[0])] + ShapeForest(cs[1..])
  }

  /** No type in the subtree begins with a space (tree-sitter's type names never
      do), so a line's indentation and type can be told apart. */
  predicate TypesUnindented(n: Node)
    decreases n
  {
    && (|n.kind| == 0 || n.kind[0] != ' ')
    && forall k :: 0 <= k < |n.children| ==> TypesUnindented(n.children[k])
  }

  /** Reads one node printed at `indent` from the front of `lines`, together
      with the lines printed for its children; gives the outline read and the
      number of lines used. */
  function ReadNode(lines: seq<string>, indent: nat): (r: Option<(Outline, nat)>)
    ensures r.Some? ==> 1 <= r.value.1 <= |lines|
    decreases |lines|, 0
  {
    if |lines| == 0 || LeadingSpaces(lines[0]) != indent then
      None
    else
      var (cs, used) := ReadChildren(lines[1..], indent);
      Some((Outline(lines[0][indent..], cs), 1 + used))
  }

  /** Reads the consecutive children printed at `parentIndent + 2`. */
  function ReadChildren(lines: seq<string>, parentIndent: nat): (r: (seq<Outline>, nat))
    ensures r.1 <= |lines|
    decreases |lines|, 1
  {
    match ReadNode(lines, parentIndent + 2)
    case None => ([], 0)
    case Some((c, used)) =>
      var (cs, more) := ReadChildren(lines[used..], parentIndent);
      ([c] + cs, used + more)
  }

  /** Reads a whole printed tree; every line must be used. */
  function ReadOutline(lines: seq<string>): Option<Outline> {
    match ReadNode(lines, 0)
    case None => None
    case Some((o, used)) => if used == |lines| then Some(o) else None
  }

  /** Reading stops exactly after a printed subtree when the next line is
      indented no deeper than the subtree's own first line. */
  lemma {:induction false} ReadNodeInvertsLines(n: Node, indent: nat, rest: seq<string>)
    requires TypesUnindented(n)
    requires |rest| == 0 || LeadingSpaces(rest[0]) <= indent
    ensures ReadNode(Lines(n, indent) + rest, indent) == Some((ShapeOf(n), Size(n)))
    decreases n, 1
  {
    var ls := Lines(n, indent) + rest;
    LeadingSpacesOfIndented(indent, n.kind);
    assert ls[0] == Spaces(indent) + n.kind;
    assert ls[1..] == LinesForest(n.children, indent + 2) + rest;
    ReadChildrenInvertsLinesForest(n.children, indent, rest);
  }

  lemma {:induction false} ReadChildrenInvertsLinesForest(cs: seq<Node>, parentIndent: nat, rest: seq<string>)
    requires forall k :: 0 <= k < |cs| ==> TypesUnindented(cs[k])
    requires |rest| == 0 || LeadingSpaces(rest[0]) <= parentIndent
    ensures ReadChildren(LinesForest(cs, parentIndent + 2) + rest, parentIndent) == (ShapeForest(cs), SizeForest(cs))
    decreases cs, 0
  {
    var indent := parentIndent + 2;
    var ls := LinesForest(cs, indent) + rest;
    if |cs| == 0 {
      assert ls == rest;
    } else {
      var tail := LinesForest(cs[1..], indent) + rest;
      assert ls == Lines(cs[0], indent) + tail;
      if |cs| > 1 {
        assert cs[1..][0] == cs[1];
        assert LinesForest(cs[1..], indent)[0] == Lines(cs[1], indent)[0];
        assert tail[0] == Spaces(indent) + cs[1].kind;
        LeadingSpacesOfIndented(indent, cs[1].kind);
      } else {
        assert tail == rest;
      }
      ReadNodeInvertsLines(cs[0], indent, tail);
      assert ls[Size(cs[0])..] == tail;
      ReadChildrenInvertsLinesForest(cs[1..], parentIndent, rest);
    }
  }

  /** Round trip: the printed lines of a tree read back as exactly its outline,
      the types of its nodes and their nesting. */
  lemma PrintTreeRoundTrip(root: Node)
    requires TypesUnindented(root)
    ensures ReadOutline(PrintTree(root)) == Some(ShapeOf(root))
  {
    ReadNodeInvertsLines(root, 0, []);
    assert PrintTree(root) + [] == PrintTree(root);
  }
}
