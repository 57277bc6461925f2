# Huffman coding, modelled in Dafny

A model of a small Huffman coder: its tree node, frequency counting, tree
construction, code-table generation, encoding and decoding. The model is
written in Dafny, and properties of each of these are proved.

- Symbols are a generic type `S` with equality. The program itself uses `char`.
- Bit strings are `seq<char>` made of `'0'` and `'1'`.

Modules, in the program's order:

- `HuffmanNode` (huffman_node.dfy): the `Node` datatype. A node is either
  `Leaf(sym, amount)` or `Internal(amount, left, right)`. The module also has
  `IsLeaf`, the leaves of a tree, the weight and leaves of a collection of
  trees, and well-formedness (an internal node's amount is the sum of its
  children's, and its right child is never heavier than its left).
- `FrequencyCounter` (frequency_counter.dfy): `count_chars` as the method
  `CountChars`, with a nested loop and an early exit. It is proved equal to the
  function `Frequencies`: one leaf per distinct symbol, in order of first
  appearance, holding that symbol's number of occurrences.
- `TreeBuilder` (tree_builder.dfy): `create_tree` as the loop `CreateTree`.
  Each round is `MergeLightestTwo`: sort, pop twice, push. The Rust
  `sort_by` call is modelled by an insertion sort, `SortByAmountDesc`. It is
  proved descending, a permutation and stable, and equal to any other stable
  descending sort.
- `Codes` (code_table.dfy): `generate_huffman_tree_map` as the recursive
  function `GenerateCodes`, which threads the map: the left subtree is filled
  in first, then the right one. `FollowPath` and `Reaches` give the meaning of
  a code as a walk from the root.
- `Codec` (codec.dfy): `encode_text` as `EncodeText` and `decode_text` as
  `DecodeText`, each a loop proved against a specification function (`Encode`
  and `Decoded`). The round trip and the single-symbol behaviour are lemmas
  about those functions. `EncodeDecode` is the encode-then-decode sequence of
  `main`.
- `Scenarios` (scenarios.dfy) works through two texts:
  - the demo text "Hello World!": nine leaves, and the round trip returns it;
  - "aaaaaab": seven bits.

Two behaviours follow the code rather than the design's stated intent:

- **Empty input.** The program panics: `create_tree` pops from an empty vector.
  It does not return an error value. The model makes non-empty input a
  precondition of `CreateTree` and `EncodeText`.
- **One distinct symbol.** The tree is a single leaf, and its code is empty.
  Encoding yields no bits, and decoding those bits yields the empty text. The
  program signals nothing, and the model proves exactly this behaviour.
  Decoding a non-empty bit string with a single-leaf tree emits the symbol
  once per bit, because the walk never leaves the root leaf.

## Model

| member | source | states |
|---|---|---|
| HuffmanNode.Node.IsLeaf | src/main.rs:15-17 | a node is a leaf exactly when it is the only leaf of its subtree |
| HuffmanNode.LeavesOutnumberMerges | src/main.rs:7-12 | a tree has one leaf more than it has internal nodes |
| HuffmanNode.LeafSymsAreLeaves | src/main.rs:7-12 | the leaf symbols of a tree are exactly the symbols stored in its leaves |
| FrequencyCounter.CountChars | src/main.rs:21-38 | the nodes returned are exactly `Frequencies(input)` |
| FrequencyCounter.FrequenciesBump | src/main.rs:25-30 | counting a symbol that already has a leaf adds one to that leaf's amount and changes nothing else |
| FrequencyCounter.FrequenciesAppend | src/main.rs:32-34 | counting a symbol without a leaf appends a new leaf with amount 1 |
| FrequencyCounter.FrequenciesSpec | src/main.rs:21-38 | the result has only leaves, one per distinct input symbol and no others, each with that symbol's number of occurrences; the leaves are in order of first appearance; the amounts sum to the input length; the result is empty exactly when the input is |
| FrequencyCounter.FrequenciesCounts | src/main.rs:21-38 | each leaf holds a symbol of the input and that symbol's number of occurrences |
| FrequencyCounter.FrequenciesCover | src/main.rs:23-34 | every input symbol has a leaf |
| FrequencyCounter.DistinctFirstAppearanceOrder | src/main.rs:23-34 | the distinct symbols come in strictly increasing order of first occurrence |
| FrequencyCounter.FrequenciesTotal | src/main.rs:21-38 | the amounts add up to the length of the input |
| FrequencyCounter.DistinctSize | src/main.rs:21-38 | when a set holds exactly the input's symbols, the number of leaves is the size of that set |
| TreeBuilder.SortByAmountDesc | src/main.rs:43 | the sort keeps the length and the multiset of nodes |
| TreeBuilder.InsertSorted | src/main.rs:43 | inserting into a descending sequence keeps it descending |
| TreeBuilder.InsertStable | src/main.rs:43 | insertion places the new node before equal-amount nodes and keeps the order of the others |
| TreeBuilder.SortIsDescending | src/main.rs:43 | the sorted nodes are in descending order of amount |
| TreeBuilder.SortIsStableDescending | src/main.rs:43 | the sort is descending and a permutation, and nodes of equal amount keep their input order (Rust's `sort_by` is stable) |
| TreeBuilder.StableOrderDetermines | src/main.rs:43 | two descending sequences that order every group of equal-amount nodes alike are equal |
| TreeBuilder.StableSortIsUnique | src/main.rs:43 | any descending result that orders equal amounts as the input does equals the model's sort, so the model is the tree Rust's `sort_by` builds |
| TreeBuilder.InsertKeepsSum | src/main.rs:43 | inserting a node adds its amount to the total |
| TreeBuilder.InsertKeepsLeaves | src/main.rs:43 | inserting a node adds its leaves to the multiset of leaves |
| TreeBuilder.SortKeepsTotals | src/main.rs:43 | sorting keeps the total amount and the multiset of leaves |
| TreeBuilder.LastTwoAreLightest | src/main.rs:43-45 | the two nodes popped after sorting are the two lightest: the first popped is no heavier than the second, and the second is no heavier than any node left behind |
| TreeBuilder.MergeKeepsTotals | src/main.rs:44-46 | replacing the last two nodes by a node above them keeps the total amount and the sequence of leaves |
| TreeBuilder.MergedOnce | src/main.rs:43-46 | one round shortens the collection by one |
| TreeBuilder.MergeRoundTotals | src/main.rs:42-48 | a round keeps the total amount and the multiset of leaves |
| TreeBuilder.MergeRoundWellFormed | src/main.rs:43-46 | a round keeps every node well formed: the new node's amount is the sum of its children's, and its right child (`first`) is no heavier than its left child (`second`) |
| TreeBuilder.MergeRoundKeepsTotals | src/main.rs:42-48 | the loop invariant (total, multiset of leaves, well-formedness) is preserved by a round |
| TreeBuilder.MergeLightestTwo | src/main.rs:43-46 | the loop body (sort, pop `first`, pop `second`, push a node with `second` on the left and `first` on the right) computes `MergedOnce` |
| TreeBuilder.LastNodeIsTree | src/main.rs:49 | the last remaining node weighs the total and holds every leaf |
| TreeBuilder.CreateTree | src/main.rs:41-50 | it performs exactly `len - 1` merges; the root's amount is the total of the inputs; the root's leaves are the leaves of the inputs as a multiset; well-formed inputs give a well-formed root; leaf inputs give a root whose leaves are exactly the inputs, with `len - 1` internal nodes |
| Codes.GenerateCodes | src/main.rs:64-75 | the table's keys are the keys already present plus the leaf symbols of the node |
| Codes.CodeTable | src/main.rs:55-56 | the table built from an empty map has exactly the tree's leaf symbols as keys |
| Codes.GenerateCodesPaths | src/main.rs:64-75 | each leaf symbol's code is the current path followed by a left-0/right-1 path to a leaf holding that symbol; entries for other symbols are unchanged |
| Codes.CodeTablePaths | src/main.rs:64-75 | every code leads from the root to a leaf holding its symbol |
| Codes.CodeTableShape | src/main.rs:68-72 | codes use only '0' and '1', are no longer than the number of internal nodes, and below an internal root are non-empty |
| Codes.SingleLeafCode | src/main.rs:65-66 | a root that is a single leaf gets the table `{sym: ""}` |
| Codes.FollowPathConcat | src/main.rs:64-75 | following one path and then another is following their concatenation |
| Codes.FollowPathBounds | src/main.rs:68-72 | a path that can be followed has at most as many steps as the tree has internal nodes, and only '0' and '1' |
| Codes.PrefixReachesSameLeaf | src/main.rs:64-75 | a path that extends a path to a leaf can only be that same path to the same leaf |
| Codes.CodeTablePrefixFree | src/main.rs:64-75 | no symbol's code is a prefix of another symbol's code |
| Codec.EncodeSnoc | src/main.rs:57-59 | encoding one more symbol appends its code |
| Codec.EncodePrefixStep | src/main.rs:57-59 | each loop step appends the code of the next symbol of the text |
| Codec.TreeOfFrequencies | src/main.rs:53 | the tree built from the counted leaves is well formed and weighs the text length; it has one leaf per distinct symbol and `distinct - 1` internal nodes; it is a leaf exactly when the text has one distinct symbol; it holds every symbol of the text |
| Codec.FrequenciesShapeTree | src/main.rs:53 | a tree with the counted leaves holds every symbol of the text and has one leaf per distinct symbol |
| Codec.EncodeText | src/main.rs:52-61 | the returned tree has the properties of `TreeOfFrequencies`; every table lookup succeeds (the source's `unwrap` never fails); the bits are the codes of the text's symbols in order |
| Codec.Step | src/main.rs:82-88 | a step from an internal node moves to one of its children, and a leaf does not move |
| Codec.DecodeText | src/main.rs:78-95 | the output is `Decoded(tree, tree, input)`: '1' goes right, anything else goes left, and the walk returns to the root after emitting each leaf |
| Codec.DecodeCode | src/main.rs:81-92 | decoding a code from an internal node emits the symbol of the leaf it reaches and returns to the root |
| Codec.DecodeEncoded | src/main.rs:52-95 | below an internal root, decoding the encoding of a text followed by more bits gives the text followed by the decoding of those bits |
| Codec.RoundTrip | src/main.rs:52-95 | below an internal root, decoding the encoding gives back the text |
| Codec.PartialPathEmitsNothing | src/main.rs:81-93 | a walk that ends at an internal node emits nothing |
| Codec.TrailingPartialPathDropped | src/main.rs:81-93 | bits after the last complete code that stop between leaves are dropped |
| Codec.SingleLeafDecoding | src/main.rs:81-92 | with a single-leaf tree, every bit emits that leaf's symbol |
| Codec.SingleLeafEncoding | src/main.rs:57-59 | with a single-leaf tree, a text of its symbol encodes to the empty bit string |
| Codec.EncodedLength | src/main.rs:57-59 | when every code has between `lo` and `hi` bits, the encoding has between `lo * n` and `hi * n` bits for a text of length `n` |
| Codec.EncodeDecode | src/main.rs:101-108 | with two or more distinct symbols, decoding returns the text, using between 1 and `distinct - 1` bits per symbol; with one distinct symbol, both the bits and the decoded text are empty |
| Scenarios.HelloWorldCount | src/main.rs:100 | "Hello World!" has nine distinct characters |
| Scenarios.HelloWorld | src/main.rs:100-108 | the demo text's tree has nine leaves, its encoding has between 12 and 96 bits, and decoding gives the text back |
| Scenarios.SkewedCount | src/main.rs:21-38 | "aaaaaab" has two distinct characters |
| Scenarios.Skewed | src/main.rs:52-95 | "aaaaaab" encodes to 7 bits (fewer than 8 per character) and decodes back to itself |

## Left out

- `main`'s printing is not modelled. Neither is its binary-ASCII comparison string (`format!("{:b}", ...)`) nor the `f32` percentage. These are output formatting and floating point.
- `HashMap` is modelled as a Dafny `map`. Its hashing and its iteration order play no part in the results.
- `i32` amounts are modelled as `nat`, so overflow is not modelled. Amounts never exceed the length of the text.
- Characters are an opaque symbol type. Unicode decoding of the `&str` (`chars()`) is not modelled.
- The in-place sorting algorithm behind `sort_by` is not modelled. What it computes is modelled instead: an insertion sort proved equal to every stable sort by descending amount.
- CreateTree: the model takes the vector by value. The source's vector borrowed as `&mut` and left empty afterwards is not modelled.
- Node: the `Option` fields of the Rust struct allow states the program never builds: a node with one child, or a leaf without a symbol. The datatype cannot express those states. `decode_text`'s `if let Some` guards and `value.unwrap()` therefore always succeed in the model.
- CreateTree, EncodeText: the panic on an empty text is a precondition. No error value is produced, and the code produces none either.
