/** `find_function_node` and the extraction of the found definition's text
    (tree_sitter_example_full.py). The search is a recursive depth-first,
    pre-order walk that stops at the first `function_definition` whose second
    child is an `identifier` spelling the wanted name. */
module FindFunction {
  import opened Wrappers
  import opened Text
  import opened SyntaxTree

  const FunctionDefinition: string := "function_definition"
  const Identifier: string := "identifier"

  /** The one exception the search can raise: `node.children[1]` on a
      `function_definition` with fewer than two children (Python's IndexError). */
  datatype FindError = IndexError

  /** The text a node covers: `source[start_byte:end_byte]`. */
  function NodeText(source: string, x: Node): string {
    Slice(source, x.startByte, x.endByte)
  }

  /** `x` is a definition of the function `name`. */
  predicate IsMatch(x: Node, source: string, name: string) {
    && x.kind == FunctionDefinition
    && |x.children| >= 2
    && x.children[1].kind == Identifier
    && NodeText(source, x.children[1]) == name
  }

  /** `x` is a `function_definition` whose `children[1]` does not exist. */
  predicate IsMalformed(x: Node) {
    x.kind == FunctionDefinition && |x.children| < 2
  }

  /** What the search does on meeting a node before looking at its children:
      return it, raise, or carry on into the children. */
  datatype Verdict = Hit | Raise | Descend

  function Probe(x: Node, source: string, name: string): (v: Verdict)
    ensures v == Hit <==> IsMatch(x, source, name)
    ensures v == Raise <==> IsMalformed(x)
  {
    if x.kind == FunctionDefinition then
      var nameNode := if |x.children| >= 2 then Some(x.children[1]) else None;
      match nameNode
      case None => Raise
      case Some(c) =>
        if c.kind == Identifier && NodeText(source, c) == name then Hit else Descend
    else
      Descend
  }

  /** `find_function_node(node, name)`: `Success(Some(m))` for the node returned,
      `Success(None)` for `None`, `Failure(IndexError)` when it raises. */
  function Find(node: Node, source: string, name: string): (r: Result<Option<Node>, FindError>)
    ensures r.Success? && r.value.Some? ==>
      IsMatch(r.value.value, source, name) && r.value.value in PreOrder(node)
    decreases node, 1
  {
    match Probe(node, source, name)
    case Hit => Success(Some(node))
    case Raise => Failure(IndexError)
    case Descend => FindIn(node.children, source, name)
  }

  /** The `for child in node.children` loop: the first child search that does
      not come back with `None` decides the result, later siblings are skipped. */
  function FindIn(cs: seq<Node>, source: string, name: string): (r: Result<Option<Node>, FindError>)
    ensures r.Success? && r.value.Some? ==>
      IsMatch(r.value.value, source, name) && r.value.value in PreOrderForest(cs)
    decreases cs, 0
  {
    if |cs| == 0 then
      Success(None)
    else
      var r := Find(cs[0], source, name);
      if r != Success(None) then r else FindIn(cs[1..], source, name)
  }

  /*
   * A reference definition: scan the flattened pre-order sequence and stop at
   * the first node that is either a match or malformed.
   */

  function ScanFirst(s: seq<Node>, source: string, name: string): Result<Option<Node>, FindError> {
    if |s| == 0 then
      Success(None)
    else
      match Probe(s[0], source, name)
      case Hit => Success(Some(s[0]))
      case Raise => Failure(IndexError)
      case Descend => ScanFirst(s[1..], source, name)
  }

  /** Position `i` of `s` is the first one at which the search stops. */
  predicate FirstStop(s: seq<Node>, i: int, source: string, name: string) {
    && 0 <= i < |s|
    && (IsMatch(s[i], source, name) || IsMalformed(s[i]))
    && forall j :: 0 <= j < i ==> !IsMatch(s[j], source, name) && !IsMalformed(s[j])
  }

  /** Every node of the subtree is a `function_definition` only if it has the
      second child the search reads. */
  predicate WellFormed(n: Node) {
    forall x :: x in PreOrder(n) && x.kind == FunctionDefinition ==> |x.children| >= 2
  }

  /** The scan either runs off the end, or stops at its first match or malformed
      node and reports that node. */
  lemma {:induction false} ScanFirstBehaviour(s: seq<Node>, source: string, name: string)
    ensures ScanFirst(s, source, name) == Success(None) <==>
      forall i :: 0 <= i < |s| ==> !IsMatch(s[i], source, name) && !IsMalformed(s[i])
    ensures forall i :: FirstStop(s, i, source, name) ==>
      ScanFirst(s, source, name) ==
        if IsMatch(s[i], source, name) then Success(Some(s[i])) else Failure(IndexError)
  {
    if |s| > 0 {
      ScanFirstBehaviour(s[1..], source, name);
      forall i | FirstStop(s, i, source, name) && i > 0
        ensures FirstStop(s[1..], i - 1, source, name)
      {
        assert s[1..][i - 1] == s[i];
        forall j | 0 <= j < i - 1
          ensures !IsMatch(s[1..][j], source, name) && !IsMalformed(s[1..][j])
        {
          assert s[1..][j] == s[j + 1];
        }
      }
      if forall i :: 0 <= i < |s[1..]| ==> !IsMatch(s[1..][i], source, name) && !IsMalformed(s[1..][i]) {
        forall i | 1 <= i < |s|
          ensures !IsMatch(s[i], source, name) && !IsMalformed(s[i])
        {
          assert s[i] == s[1..][i - 1];
        }
      }
    }
  }

  /** Scanning a concatenation: the second part is only looked at when the
      first part runs off its end. */
  lemma {:induction false} ScanFirstAppend(a: seq<Node>, b: seq<Node>, source: string, name: string)
    ensures ScanFirst(a + b, source, name) ==
      if ScanFirst(a, source, name) == Success(None) then ScanFirst(b, source, name)
      else ScanFirst(a, source, name)
  {
    if |a| == 0 {
      assert a + b == b;
    } else {
      assert (a + b)[0] == a[0];
      assert (a + b)[1..] == a[1..] + b;
      ScanFirstAppend(a[1..], b, source, name);
    }
  }

  /** The recursive search computes exactly the linear scan of the subtree's
      pre-order sequence. */
  lemma {:induction false} FindIsPreOrderScan(node: Node, source: string, name: string)
    ensures Find(node, source, name) == ScanFirst(PreOrder(node), source, name)
    decreases node, 1
  {
    var rest := PreOrderForest(node.children);
    assert PreOrder(node) == [node] + rest;
    assert ([node] + rest)[1..] == rest;
    FindInIsPreOrderScan(node.children, source, name);
  }

  lemma {:induction false} FindInIsPreOrderScan(cs: seq<Node>, source: string, name: string)
    ensures FindIn(cs, source, name) == ScanFirst(PreOrderForest(cs), source, name)
    decreases cs, 0
  {
    if |cs| > 0 {
      FindIsPreOrderScan(cs[0], source, name);
      FindInIsPreOrderScan(cs[1..], source, name);
      ScanFirstAppend(PreOrder(cs[0]), PreOrderForest(cs[1..]), source, name);
    }
  }

  /** The loop over children never looks past the first run of siblings that
      decides the result. */
  lemma {:induction false} FindInSkipsLaterSiblings(a: seq<Node>, b: seq<Node>, source: string, name: string)
    ensures FindIn(a + b, source, name) ==
      if FindIn(a, source, name) == Success(None) then FindIn(b, source, name)
      else FindIn(a, source, name)
  {
    FindInIsPreOrderScan(a + b, source, name);
    FindInIsPreOrderScan(a, source, name);
    FindInIsPreOrderScan(b, source, name);
    PreOrderForestAppend(a, b);
    ScanFirstAppend(PreOrderForest(a), PreOrderForest(b), source, name);
  }

  /** The full behaviour of the search in terms of the pre-order sequence `P`
      of the subtree: it returns the first match of `P` if no malformed
      definition comes before it, raises if a malformed definition comes first,
      and returns `None` exactly when `P` holds neither. In particular a
      matching starting node is returned whatever lies below it. */
  lemma FindBehaviour(node: Node, source: string, name: string)
    ensures var P := PreOrder(node);
      Find(node, source, name) == Success(None) <==>
        forall i :: 0 <= i < |P| ==> !IsMatch(P[i], source, name) && !IsMalformed(P[i])
    ensures var P := PreOrder(node);
      forall m :: Find(node, source, name) == Success(Some(m)) <==>
        exists i :: FirstStop(P, i, source, name) && IsMatch(P[i], source, name) && P[i] == m
    ensures var P := PreOrder(node);
      Find(node, source, name).Failure? <==>
        exists i :: FirstStop(P, i, source, name) && IsMalformed(P[i])
    ensures IsMatch(node, source, name) ==> Find(node, source, name) == Success(Some(node))
  {
    var P := PreOrder(node);
    FindIsPreOrderScan(node, source, name);
    ScanFirstBehaviour(P, source, name);
    if Find(node, source, name) != Success(None) {
      var i := FirstStopExists(P, source, name);
      assert FirstStop(P, i, source, name);
    }
  }

  /** Some position stops the scan as soon as one is a match or malformed. */
  lemma FirstStopExists(s: seq<Node>, source: string, name: string) returns (i: nat)
    requires exists k :: 0 <= k < |s| && (IsMatch(s[k], source, name) || IsMalformed(s[k]))
    ensures FirstStop(s, i, source, name)
  {
    var k :| 0 <= k < |s| && (IsMatch(s[k], source, name) || IsMalformed(s[k]));
    i := 0;
    while !(IsMatch(s[i], source, name) || IsMalformed(s[i]))
      invariant 0 <= i <= k
      invariant forall j :: 0 <= j < i ==> !IsMatch(s[j], source, name) && !IsMalformed(s[j])
      decreases k - i
    {
      i := i + 1;
    }
  }

  /** On a tree where every `function_definition` has its name child the search
      never raises, and it returns `None` exactly when no node of the subtree
      defines `name`. */
  lemma FindComplete(node: Node, source: string, name: string)
    requires WellFormed(node)
    ensures Find(node, source, name).Success?
    ensures Find(node, source, name) == Success(None) <==>
      forall x :: x in PreOrder(node) ==> !IsMatch(x, source, name)
  {
    var P := PreOrder(node);
    forall i | 0 <= i < |P|
      ensures !IsMalformed(P[i])
    {
      assert P[i] in P;
    }
    FindBehaviour(node, source, name);
    assert !exists i :: FirstStop(P, i, source, name) && IsMalformed(P[i]);
    if forall x :: x in P ==> !IsMatch(x, source, name) {
      forall i | 0 <= i < |P|
        ensures !IsMatch(P[i], source, name)
      {
        assert P[i] in P;
      }
    }
  }

  /** Pre-order minimality: the node returned is the earliest definition of
      `name` in depth-first, left-to-right order, and no malformed definition
      precedes it. */
  lemma FindFirstMatch(node: Node, source: string, name: string, m: Node)
    requires Find(node, source, name) == Success(Some(m))
    ensures exists i :: (0 <= i < |PreOrder(node)| && PreOrder(node)[i] == m
      && IsMatch(m, source, name)
      && forall j :: 0 <= j < i ==>
           !IsMatch(PreOrder(node)[j], source, name) && !IsMalformed(PreOrder(node)[j]))
  {
    FindBehaviour(node, source, name);
  }

  /** Conversely, on a well-formed tree the earliest definition of `name` in
      pre-order is the one returned, whatever other definitions follow it. */
  lemma FindReturnsEarliest(node: Node, source: string, name: string, i: nat)
    requires WellFormed(node)
    requires i < |PreOrder(node)| && IsMatch(PreOrder(node)[i], source, name)
    requires forall j :: 0 <= j < i ==> !IsMatch(PreOrder(node)[j], source, name)
    ensures Find(node, source, name) == Success(Some(PreOrder(node)[i]))
  {
    var P := PreOrder(node);
    assert FirstStop(P, i, source, name) by {
      forall j | 0 <= j < i
        ensures !IsMalformed(P[j])
      {
        assert P[j] in P;
      }
    }
    FindBehaviour(node, source, name);
  }

  /** A `function_definition` with another name does not end the search: a
      definition of `name` nested inside it is found. */
  lemma FindsNestedDefinition(node: Node, source: string, name: string)
    requires WellFormed(node)
    requires node.kind == FunctionDefinition && !IsMatch(node, source, name)
    requires exists x :: x in PreOrderForest(node.children) && IsMatch(x, source, name)
    ensures Find(node, source, name).Success? && Find(node, source, name).value.Some?
    ensures Find(node, source, name).value.value in PreOrderForest(node.children)
  {
    var x :| x in PreOrderForest(node.children) && IsMatch(x, source, name);
    assert PreOrder(node) == [node] + PreOrderForest(node.children);
    assert x in PreOrder(node);
    FindComplete(node, source, name);
  }

  /** On a well-nested tree the node returned is the leftmost definition of
      `name` in the text: no definition of `name` starts before it. */
  lemma FoundIsLeftmost(node: Node, source: string, name: string, m: Node)
    requires WellNested(node)
    requires Find(node, source, name) == Success(Some(m))
    ensures forall x :: x in PreOrder(node) && IsMatch(x, source, name) ==> m.startByte <= x.startByte
  {
    var P := PreOrder(node);
    FindFirstMatch(node, source, name, m);
    var i :| 0 <= i < |P| && P[i] == m && forall j :: 0 <= j < i ==> !IsMatch(P[j], source, name);
    PreOrderSortedByStart(node);
    forall x | x in P && IsMatch(x, source, name)
      ensures m.startByte <= x.startByte
    {
      var k :| 0 <= k < |P| && P[k] == x;
      assert i <= k;
    }
  }

  /** Lines 41-48: search from the root and, when a node is found, take
      `source[start_byte:end_byte]` of it; nothing is extracted otherwise. */
  function ExtractFunction(source: string, root: Node, name: string): (r: Result<Option<string>, FindError>)
    ensures r.Success? && r.value.Some? ==>
      exists i :: (FirstStop(PreOrder(root), i, source, name) && IsMatch(PreOrder(root)[i], source, name)
        && r.value.value == NodeText(source, PreOrder(root)[i]))
    ensures r == Success(None) <==> Find(root, source, name) == Success(None)
    ensures r.Failure? <==> Find(root, source, name).Failure?
  {
    FindBehaviour(root, source, name);
    match Find(root, source, name)
    case Failure(e) => Failure(e)
    case Success(None) => Success(None)
    case Success(Some(m)) => Success(Some(NodeText(source, m)))
  }

  /** `code` is the full text of the definition `m`, and the name child's range,
      taken relative to the start of `m`, spells `name` inside it. */
  predicate CodeHoldsName(code: string, m: Node, name: string)
    requires |m.children| >= 2
  {
    var c := m.children[1];
    && |code| == m.endByte - m.startByte
    && m.startByte <= c.startByte <= c.endByte <= m.endByte
    && code[c.startByte - m.startByte .. c.endByte - m.startByte] == name
  }

  /** When the parsed text covers the tree, the extracted code spans the whole
      definition and holds the function's name at the offset of the name node. */
  lemma {:induction false} ExtractedCodeHoldsName(source: string, root: Node, name: string, code: string)
    requires WellNested(root) && root.endByte <= |source|
    requires ExtractFunction(source, root, name) == Success(Some(code))
    ensures exists i :: (FirstStop(PreOrder(root), i, source, name) && IsMatch(PreOrder(root)[i], source, name)
      && code == NodeText(source, PreOrder(root)[i]) && CodeHoldsName(code, PreOrder(root)[i], name))
  {
    var P := PreOrder(root);
    var i :| FirstStop(P, i, source, name) && IsMatch(P[i], source, name) && code == NodeText(source, P[i]);
    NodeOfWellNestedTree(root, P[i]);
    DefinitionCoversName(source, P[i], name, code);
  }

  lemma {:induction false} NodeOfWellNestedTree(root: Node, m: Node)
    requires WellNested(root)
    requires m in PreOrder(root)
    ensures WellNested(m) && m.endByte <= root.endByte
  {
    PreOrderSortedByStart(root);
    PreOrderWellNested(root);
    var P := PreOrder(root);
    var i :| 0 <= i < |P| && P[i] == m;
  }

  lemma DefinitionCoversName(source: string, m: Node, name: string, code: string)
    requires WellNested(m) && m.endByte <= |source|
    requires IsMatch(m, source, name)
    requires code == NodeText(source, m)
    ensures CodeHoldsName(code, m, name)
  {
  }
}
