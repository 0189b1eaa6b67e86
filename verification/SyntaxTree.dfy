/** The parser's syntax tree, as the scripts read it: every node has a type tag,
    a half-open byte range into the parsed text, and ordered children. */
module SyntaxTree {

  /** `kind` is the node's `type` attribute (`type` is a keyword here). */
  datatype Node = Node(kind: string, startByte: nat, endByte: nat, children: seq<Node>)

  /** Number of nodes in the subtree rooted at `n`. */
  function Size(n: Node): (r: nat)
    ensures r >= 1
    decreases n, 1
  {
    1 + SizeForest(n.children)
  }

  function SizeForest(cs: seq<Node>): nat
    decreases cs, 0
  {
    if |cs| == 0 then 0 else Size(cs[0]) + SizeForest(cs[1..])
  }

  /** The subtree rooted at `n` in depth-first, left-to-right pre-order: the
      order in which a recursive walk that looks at a node before its children
      meets them. */
  function PreOrder(n: Node): (r: seq<Node>)
    ensures |r| == Size(n)
    ensures r[0] == n
    decreases n, 1
  {
    [n] + PreOrderForest(n.children)
  }

  function PreOrderForest(cs: seq<Node>): (r: seq<Node>)
    ensures |r| == SizeForest(cs)
    decreases cs, 0
  {
    if |cs| == 0 then [] else PreOrder(cs[0]) + PreOrderForest(cs[1..])
  }

  lemma {:induction false} SizeForestAppend(a: seq<Node>, b: seq<Node>)
    ensures SizeForest(a + b) == SizeForest(a) + SizeForest(b)
  {
    if |a| == 0 {
      assert a + b == b;
    } else {
      assert (a + b)[1..] == a[1..] + b;
      SizeForestAppend(a[1..], b);
    }
  }

  /** Walking two runs of siblings one after the other visits the first run's
      subtrees, then the second's. */
  lemma {:induction false} PreOrderForestAppend(a: seq<Node>, b: seq<Node>)
    ensures PreOrderForest(a + b) == PreOrderForest(a) + PreOrderForest(b)
  {
    if |a| == 0 {
      assert a + b == b;
    } else {
      assert (a + b)[1..] == a[1..] + b;
      PreOrderForestAppend(a[1..], b);
    }
  }

  /** The byte-range invariant the parser guarantees: a node's range is
      well-formed, every child lies inside its parent, and the children are in
      source order without overlap. */
  predicate WellNested(n: Node)
    decreases n
  {
    && n.startByte <= n.endByte
    && (forall k :: 0 <= k < |n.children| ==>
          n.startByte <= n.children[k].startByte && n.children[k].endByte <= n.endByte)
    && (forall j, k :: 0 <= j < k < |n.children| ==> n.children[j].endByte <= n.children[k].startByte)
    && (forall k :: 0 <= k < |n.children| ==> WellNested(n.children[k]))
  }

  predicate StartsSorted(s: seq<Node>) {
    forall i, j :: 0 <= i <= j < |s| ==> s[i].startByte <= s[j].startByte
  }

  predicate WithinRange(s: seq<Node>, lo: nat, hi: nat) {
    forall i :: 0 <= i < |s| ==> lo <= s[i].startByte <= s[i].endByte <= hi
  }

  /** On a well-nested tree the pre-order walk meets nodes in non-decreasing
      start offset, and every node of the subtree lies inside the root's range. */
  lemma {:induction false} PreOrderSortedByStart(n: Node)
    requires WellNested(n)
    ensures StartsSorted(PreOrder(n))
    ensures WithinRange(PreOrder(n), n.startByte, n.endByte)
    decreases n, 1
  {
    ForestSortedByStart(n.children, n.startByte, n.endByte);
    var rest := PreOrderForest(n.children);
    assert PreOrder(n) == [n] + rest;
  }

  lemma {:induction false} ForestSortedByStart(cs: seq<Node>, lo: nat, hi: nat)
    requires forall k :: 0 <= k < |cs| ==> WellNested(cs[k])
    requires forall k :: 0 <= k < |cs| ==> lo <= cs[k].startByte && cs[k].endByte <= hi
    requires forall j, k :: 0 <= j < k < |cs| ==> cs[j].endByte <= cs[k].startByte
    ensures StartsSorted(PreOrderForest(cs))
    ensures WithinRange(PreOrderForest(cs), lo, hi)
    decreases cs, 0
  {
    if |cs| > 0 {
      PreOrderSortedByStart(cs[0]);
      var head := PreOrder(cs[0]);
      ForestSortedByStart(cs[1..], cs[0].endByte, hi);
      var tail := PreOrderForest(cs[1..]);
      assert PreOrderForest(cs) == head + tail;
      forall i | 0 <= i < |head|
        ensures head[i].startByte <= cs[0].endByte
      {
      }
    }
  }

  /** Every node of a well-nested tree roots a well-nested subtree. */
  lemma {:induction false} PreOrderWellNested(n: Node)
    requires WellNested(n)
    ensures forall i :: 0 <= i < |PreOrder(n)| ==> WellNested(PreOrder(n)[i])
    decreases n, 1
  {
    ForestWellNested(n.children);
    assert PreOrder(n) == [n] + PreOrderForest(n.children);
  }

  lemma {:induction false} ForestWellNested(cs: seq<Node>)
    requires forall k :: 0 <= k < |cs| ==> WellNested(cs[k])
    ensures forall i :: 0 <= i < |PreOrderForest(cs)| ==> WellNested(PreOrderForest(cs)[i])
    decreases cs, 0
  {
    if |cs| > 0 {
      PreOrderWellNested(cs[0]);
      ForestWellNested(cs[1..]);
      assert PreOrderForest(cs) == PreOrder(cs[0]) + PreOrderForest(cs[1..]);
    }
  }
}
