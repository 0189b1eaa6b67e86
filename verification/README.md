# Finding a function in a syntax tree, and printing the tree

The repository consists of small scripts that hand a fixed Python snippet to
the tree-sitter parser and then work on the resulting syntax tree. Two pieces
of logic of their own sit on top of the parser, and this project models both:

- `find_function_node` (`tree_sitter_example_full.py`): a recursive,
  depth-first, pre-order search for the first `function_definition` node whose
  second child is an `identifier` whose text is a given name. The script then
  cuts the found definition's text out of the source with
  `source_code[start_byte:end_byte]`.
- `print_tree` (`tree_sitter_example_simple.py`): an indented pre-order
  rendering of the tree, one line per node, two more spaces per level.

The syntax tree is an immutable datatype `SyntaxTree.Node` carrying a type tag
(`kind`, since `type` is a Dafny keyword), a half-open byte range
`startByte`/`endByte`, and ordered `children`. Python's `None`-or-node result
is `Option<Node>`; the `IndexError` that `node.children[1]` raises on a
`function_definition` with fewer than two children is modelled as a
`Failure(IndexError)` result that propagates out of the search, just as the
exception propagates out of the recursion and the loop. `print_tree` returns
the sequence of lines it would print.

The source text is a `string`, and the parser's byte offsets are used as
character offsets, as the script does when it slices a Python `str` with
them. That is only right for ASCII text; `Text.AsciiSliceAgrees` states that
for ASCII text slicing the UTF-8 bytes and slicing the characters agree.
Python slicing is modelled exactly for non-negative bounds (`Text.Slice`):
bounds are clamped to the length and an empty slice results when the start is
not below the stop.

Two reference definitions specify the search and the printer independently of
their recursive code:
`SyntaxTree.PreOrder` (the subtree flattened in depth-first, left-to-right
order) with `FindFunction.ScanFirst` (a linear scan of that sequence), and
`PrintTree.Paths` (the child-index path of every node, in the same order).
The printer also has an inverse: `PrintTree.ReadOutline` reads the printed
lines back into an `Outline` (the node types and their nesting, without byte
ranges), and the round trip is proved.
The search and the printer are pure functions on immutable values, so they
terminate on every finite tree and change neither the tree nor the text
(Python's recursion limit is not modelled; see below).

Files: `Wrappers.dfy` (Option, Result), `Text.dfy` (slicing, spaces, ASCII
encoding), `SyntaxTree.dfy` (nodes, pre-order, the parser's byte-range
invariant), `FindFunction.dfy`, `PrintTree.dfy`.

## Model

| member | source | states |
|---|---|---|
| FindFunction.Probe | tree_sitter_example_full.py:27-31 | on meeting a node the search returns it exactly when it is a `function_definition` whose `children[1]` is an `identifier` spelling the name, and raises exactly when it is a `function_definition` with fewer than two children |
| FindFunction.Find | tree_sitter_example_full.py:26-37 | soundness: a returned node lies in the searched subtree, is a `function_definition`, its `children[1]` is an `identifier`, and `source[start_byte:end_byte]` of that child equals the name |
| FindFunction.FindIn | tree_sitter_example_full.py:33-37 | the loop over the children returns only matching nodes from the children's subtrees |
| FindFunction.FindIsPreOrderScan | tree_sitter_example_full.py:26-37 | the recursive search gives exactly the result of scanning the subtree's pre-order sequence for its first match or malformed definition |
| FindFunction.FindBehaviour | tree_sitter_example_full.py:26-37 | the result is `None` iff the subtree holds no match and no malformed definition; it is node `m` iff `m` is the first match in pre-order with no malformed definition before it; it raises iff a malformed definition comes first; a matching starting node is returned whatever lies below it |
| FindFunction.FindComplete | tree_sitter_example_full.py:27-37 | when every `function_definition` has two children the search never raises, and it returns `None` iff no node of the subtree defines the name |
| FindFunction.FindFirstMatch | tree_sitter_example_full.py:33-36 | a returned node is at a position of the pre-order sequence before which there is neither a match nor a malformed definition |
| FindFunction.FindReturnsEarliest | tree_sitter_example_full.py:33-36 | on a well-formed tree the earliest match in pre-order is the node returned, whatever matches follow |
| FindFunction.FindsNestedDefinition | tree_sitter_example_full.py:27-34 | a `function_definition` with another name does not stop the search: a matching definition nested inside it is found, among its descendants |
| FindFunction.FindInSkipsLaterSiblings | tree_sitter_example_full.py:33-36 | searching a run of siblings `a + b` gives the result for `a` unless that is `None`, and only then the result for `b` |
| FindFunction.FoundIsLeftmost | tree_sitter_example_full.py:26-37 | on a tree whose byte ranges nest as the parser produces them, no definition of the name starts before the node returned |
| FindFunction.ExtractFunction | tree_sitter_example_full.py:41-48 | when a definition is found the extracted text is `source[start_byte:end_byte]` of the node the search returns, the first match in pre-order with no malformed definition before it; nothing is extracted when the search returns `None`, and an error of the search propagates |
| FindFunction.ExtractedCodeHoldsName | tree_sitter_example_full.py:43-44 | when the text covers a well-nested tree, the extracted code is the text of the first match in pre-order, has the definition's full length and spells the name at the name node's offset inside it |
| Text.Slice | tree_sitter_example_full.py:30 | Python slicing with non-negative bounds: the length is the clamped stop minus the start (or zero), and element `k` is `s[start + k]` |
| Text.AsciiSliceAgrees | tree_sitter_example_full.py:24-30 | for ASCII text, slicing the UTF-8 encoding the parser reads and slicing the string give the same text |
| Text.Spaces | tree_sitter_example_simple.py:24 | `" " * n` is `n` space characters |
| PrintTree.Lines | tree_sitter_example_simple.py:23-26 | exactly one line is printed per node of the subtree |
| PrintTree.LinesArePreOrderIndented | tree_sitter_example_simple.py:23-26 | line `k` is the `k`-th node of the pre-order walk, its type after `indent + 2*d` spaces where `d` is the node's depth below the starting node |
| PrintTree.PathsAddressPreOrder | tree_sitter_example_simple.py:25-26 | the `k`-th path leads from the starting node to the `k`-th node of the walk; only the starting node is at depth zero |
| PrintTree.ReadBackLine | tree_sitter_example_simple.py:24 | reading a printed line back, its leading spaces give the node's depth and the rest is the node's type |
| PrintTree.ChildBlock | tree_sitter_example_simple.py:25-26 | the lines of child `j` form one contiguous block at `indent + 2`, right after the node's own line and the blocks of earlier children |
| PrintTree.ReadNodeInvertsLines | tree_sitter_example_simple.py:23-26 | the lines printed for a subtree at some indent, followed by any line indented no deeper, read back as exactly the subtree's outline (types and nesting) and use up exactly its lines |
| PrintTree.PrintTreeRoundTrip | tree_sitter_example_simple.py:23-28 | the whole printout of a tree reads back as exactly its outline, when no node type begins with a space |
| PrintTree.PrintTreeFromRoot | tree_sitter_example_simple.py:23-28 | called on the root with the default indent, the first line is the root's type with no indentation and every later line starts with two spaces |

## Left out

- Loading the Python grammar, building the parser and `parser.parse`: foreign calls into the tree-sitter library; the tree is an input value.
- `tree_sitter_example_two.py`: its query compilation and matching happen entirely inside the library, and the script only indexes the result. No query engine is modelled, since none is implemented in these scripts.
- The `print` calls and the hardcoded source literals: `print_tree` returns its lines, and the extraction returns the text instead of printing it or the "not found" message.
- Non-ASCII text: the script slices a `str` with byte offsets, which is only right for ASCII; the model uses offsets as character indices and states the ASCII case in `Text.AsciiSliceAgrees`.
- Truthiness of tree-sitter nodes in `if result:` and `if greet_node:`: a found node counts as present.
- Named-field access (`child_by_field_name("name")`): the script reads `children[1]` instead, and so does the model.
- Python's recursion limit: `find_function_node` and `print_tree` recurse once per tree level, so CPython raises `RecursionError` on a tree deeper than its recursion limit (about 1000 by default); the model returns a result on trees of every depth.
- The search by a fixed name `'greet'`: the model takes the name as a parameter.
