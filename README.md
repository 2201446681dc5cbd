# Huffman-style letter coder, modelled in Dafny

The program reads a text and counts how often each lower-case letter occurs.
Upper-case letters are folded to lower case; other characters are ignored.
It then builds a binary code tree over the letters with non-zero counts:

- one leaf per present letter, stored in a fixed arena of four parallel arrays (weight, left child, right child, character);
- a min-heap of arena handles, ordered by weight and then by the smaller handle;
- merging of the two lightest handles under a new parent until one root is left.

An explicit-stack walk of the tree gives each letter its code: '0' for a left step, '1' for a right step, and "0" when the tree is a single leaf.
The text is then emitted as the concatenation of its letters' codes.

The model follows the program's structure:

- `arena.dfy` (module `Arena`): the node arena as a class `NodeStore` owning the four arrays, plus a value snapshot `Nodes` used by the specifications.
- `heap.dfy` (module `Heap`): the array min-heap as a class `MinHeap` over a `NodeStore`. It includes the heap order, the sift-up and sift-down loops with their invariants, and push, pop and top.
- `letters.dfy` (module `Letters`): case folding, the letter-counting loop and the bit-emission loop. Both loops run over a character sequence instead of a file.
- `tree.dfy` (module `TreeBuilder`): leaf creation and the tree builder, as methods on the arena and the heap. The build invariant is proved over arena snapshots.
- `codes.dfy` (module `Codes`): the code generator. The walk order is specified as a function (`Visits`, left subtree first). The stack loop is proved against it. The prefix-free, binary and root-to-leaf properties are proved of the resulting table.
- `pipeline.dfy` (module `Pipeline`): the program's steps from text to code table and bits. It connects the tree the builder leaves to the table the walk reads from it.

## Model

| member | source | states |
|---|---|---|
| Arena.NodeStore.constructor | main.cpp:13-16 | the four arena arrays have 128 slots each and start zero-filled, as statically allocated globals do |
| Arena.NodeStore.Clear | main.cpp:48-53 | afterwards every slot holds weight 0, no children and character '\0' |
| Arena.NodeStore.SetNode | main.cpp:57-60 | slot k gets the given weight, children and character; every other slot is unchanged |
| Arena.WithNode | main.cpp:57-60 | writing slot k changes exactly slot k and keeps the arena size |
| Heap.Precedes | heap.h:36-40 | lessAt on the handles in two heap slots: lighter first, and on equal weight the smaller handle first |
| Heap.PrecedesIsStrictTotalOrder | heap.h:36-40 | lessAt's order (weight, then handle) is irreflexive, asymmetric, transitive and total on distinct handles |
| Heap.MinimumIsUnique | heap.h:36-40 | two minimal handles of one collection are the same handle, so the tie-break fixes which handle a pop returns |
| Heap.Swap | heap.h:29-33 | exchanges two slots, keeps every other slot and keeps the multiset of handles |
| Heap.RootFirst | heap.h:76-77 | in a heap, no slot precedes the root slot |
| Heap.RootIsMinimum | heap.h:84 | the root of a non-empty heap comes no later than any handle it holds |
| Heap.RootReplacedByLast | heap.h:77-79 | moving the last handle into the root slot and shrinking removes exactly the old root from the multiset |
| Heap.RootReplacedByLastShape | heap.h:77-80 | after that move, the order can be broken only between the root and its children |
| Heap.IsHeapKeptByWeights | main.cpp:95-100 | writing the weight of a slot the heap does not hold keeps the heap order |
| Heap.UpDone | heap.h:44-46 | sift-up may stop at the root or when the slot no longer precedes its parent |
| Heap.UpStep | heap.h:45-48 | one swap with the parent moves the only violation up to the parent's slot |
| Heap.ChildrenAre | heap.h:55-56 | the children of slot i are slots 2i+1 and 2i+2 |
| Heap.SiftDownChoice | heap.h:57-64 | choosing the first of i and its children either restores the order (it is i) or, after the swap, leaves the only violation below the chosen child |
| Heap.DownStep | heap.h:59-64 | swapping i with its first child moves the only violation to that child's children |
| Heap.MinHeap.constructor | heap.h:24 | a new heap is valid and empty |
| Heap.MinHeap.IsEmpty | heap.h:26 | true exactly when the heap holds no handle |
| Heap.MinHeap.GetSize | heap.h:27 | the number of handles held |
| Heap.MinHeap.SwapIdx | heap.h:29-33 | the slots become the old slots with i and j exchanged |
| Heap.MinHeap.Upheap | heap.h:43-50 | from a heap broken only at slot i, restores the heap order and keeps the handles held |
| Heap.MinHeap.Downheap | heap.h:53-66 | from a heap broken only below slot i, restores the heap order and keeps the handles held |
| Heap.MinHeap.Push | heap.h:69-73 | size grows by one and the handles held gain exactly nodeIdx; the order is kept |
| Heap.MinHeap.Pop | heap.h:76-82 | size shrinks by one and exactly one copy of the returned handle is removed; the returned handle was held and no held handle precedes it |
| Heap.MinHeap.RemoveRoot | heap.h:77-80 | the root handle is removed, the order is restored and the size shrinks by one |
| Heap.MinHeap.Top | heap.h:84 | returns slot 0, which in a non-empty heap is held and comes no later than any held handle |
| Letters.IsUpper | main.cpp:19 | the characters 'A'..'Z' |
| Letters.IsLower | main.cpp:20 | the characters 'a'..'z' |
| Letters.CaseClasses | main.cpp:19-20 | no character is both upper and lower case, and the lower-case characters are exactly the 26 letters of the alphabet |
| Letters.ToLowerFast | main.cpp:21-24 | 'A'..'Z' go to the letter at the same position in 'a'..'z'; every other character is unchanged |
| Letters.ToLowerFastFoldsLetters | main.cpp:19-24 | folding gives a lower-case letter exactly for letters of either case, and folding twice is folding once |
| Letters.Letter | main.cpp:57 | the i-th letter, 'a' + i, is lower case |
| Letters.LetterIndex | main.cpp:39 | c - 'a' is an alphabet position whose letter is c |
| Letters.LetterIndexOfLetter | main.cpp:39 | letter positions and letters are inverse to each other |
| Letters.Folded | main.cpp:38 | the text with each character folded, position by position |
| Letters.OccurrencesSnoc | main.cpp:37-40 | one more character adds one to the count of its folded letter and nothing elsewhere |
| Letters.BuildFrequency | main.cpp:28-40 | slot i ends up holding the number of characters that fold to the i-th letter |
| Letters.CharBits | main.cpp:170-173 | the bits one character emits: the code of its folded letter, or nothing when it does not fold to a lower-case letter |
| Letters.EncodeMessage | main.cpp:168-176 | the emitted bits are the codes of the text's folded letters in text order; other characters and letters with an empty code add nothing |
| Letters.EncodedLength | main.cpp:168-176 | the number of bits is the sum, over the letters, of count times code length |
| Letters.WeightedLengthSnoc | main.cpp:170-173 | one more character adds exactly the length of its letter's code to that sum |
| Letters.ZeroWeightedLength | main.cpp:168-176 | the empty text weighs nothing |
| Letters.EncodedIgnoresCase | main.cpp:170-171 | encoding the folded text gives the same bits as encoding the text |
| TreeBuilder.PresentLetters | main.cpp:55-56 | the letters with positive count, each in range and with a positive count |
| TreeBuilder.PresentLettersSnoc | main.cpp:55-61 | looking at one more letter appends it exactly when its count is positive |
| TreeBuilder.PresentLettersComplete | main.cpp:55-56 | every letter with positive count is present |
| TreeBuilder.PresentLettersAscending | main.cpp:55-61 | present letters are listed in strictly ascending alphabet order |
| TreeBuilder.LeafWeights | main.cpp:58 | the leaf weights are the positive counts in alphabet order |
| TreeBuilder.LeafWeightsTotal | main.cpp:58 | with no negative count, the leaf weights add up to the total count |
| TreeBuilder.AddLeaf | main.cpp:56-61 | writing the next leaf into the first empty slot extends the leaves by that letter and keeps the slots above it empty |
| TreeBuilder.LeafForLetter | main.cpp:56-61 | one round of the leaf loop: the present letters grow by i exactly when its count is positive, its leaf goes into the first empty slot, and the slots above stay empty |
| TreeBuilder.CreateLeafNodes | main.cpp:46-66 | returns the number of letters with positive count (at most 26); slot k holds the k-th such letter in alphabet order, with its count as weight and no children; every slot from there on is empty |
| TreeBuilder.BuildingStart | main.cpp:74-88 | with the n leaf handles pushed and curr = n, the build invariant holds |
| TreeBuilder.MergeStep | main.cpp:91-101 | merging the first live handle and the first of the others under a parent at curr keeps the build invariant, greedy rounds included, with curr + 1 |
| TreeBuilder.LiveIsHeld | main.cpp:90-101 | while building, a handle is live for the next round (below curr and no child of an earlier parent) exactly when the heap holds it |
| TreeBuilder.LiveAtSame | main.cpp:95-96 | which handles are live before a round depends only on the children written in earlier slots |
| TreeBuilder.GreedyNewParent | main.cpp:91-96 | a parent of the first live handle (left) and the first of the others (right) is a greedy round |
| TreeBuilder.MergeKeepsGreedy | main.cpp:91-101 | writing a new greedy parent keeps every earlier round greedy |
| TreeBuilder.BuildingDone | main.cpp:104-105 | when one handle is left, it is the newest slot and the tree is complete: n-1 greedy parents in slots n..2n-2, every slot below the root a child of a later parent, root weight the total leaf weight |
| TreeBuilder.BuiltAgreeBelow | main.cpp:88-105 | two arenas the builder can leave from the same leaves agree slot by slot, by induction over the rounds |
| TreeBuilder.TreeBuiltUnique | main.cpp:88-105 | the built arena is determined by the leaves: the (weight, handle) order leaves no choice in any round |
| TreeBuilder.WithParent | main.cpp:95-98 | the parent slot gets children x and y, character '#' and the sum of their weights; nothing else changes |
| TreeBuilder.WriteParent | main.cpp:95-98 | the arena becomes the old arena with that parent written |
| TreeBuilder.PopTwo | main.cpp:91-92 | removes x and then y: x comes no later than any handle held, and y no later than any other handle held |
| TreeBuilder.MergeLightestTwo | main.cpp:91-100 | the first handle held under the heap order and the first of the rest become the left and right children of a new parent at curr, which is pushed |
| TreeBuilder.PushParent | main.cpp:95-100 | writes the parent of x and y into slot curr and pushes it; the heap stays valid and gains exactly curr |
| TreeBuilder.PushLeaves | main.cpp:74-76 | the heap holds each leaf handle 0..n-1 exactly once |
| TreeBuilder.PopOnly | main.cpp:85 | pops the one handle a single-handle heap holds and leaves the heap valid and empty |
| TreeBuilder.FinishTree | main.cpp:104-105 | the handle popped last is 2n-2, the root of the finished tree, and the heap is left empty |
| TreeBuilder.MergeUntilOne | main.cpp:88-102 | the merge loop runs until one handle is left, after n-1 parents, each joining the first two live handles of its round under the heap order |
| TreeBuilder.BuildEncodingTree | main.cpp:70-109 | -1 for no leaf; for one leaf, that leaf and an untouched arena; otherwise a complete tree rooted at 2n-2 whose every parent joins the first two live handles of its round, which by TreeBuilder.TreeBuiltUnique fixes the tree |
| Codes.Cleared | main.cpp:115 | 26 empty codes |
| Codes.Visits | main.cpp:126-147 | the leaves the walk from node k meets, with their paths, the left subtree's before the right subtree's |
| Codes.CodeFor | main.cpp:139-141 | a leaf's code is never empty: its path, or "0" for the empty path; binary when the path is |
| Codes.Record | main.cpp:136-142 | meeting a leaf writes its letter's entry |
| Codes.RecordAt | main.cpp:136-142 | meeting a leaf sets the entry of the letter it holds to its code and leaves every other entry alone |
| Codes.RecordAllAt | main.cpp:136-142 | after the leaves are met in order, a letter's entry is the code of the last leaf met holding it, or what it was before |
| Codes.VisitIsLeaf | main.cpp:130-136 | every leaf the walk meets from node k is a leaf node at or below k |
| Codes.VisitsSplit | main.cpp:143-146 | from an inner node, the walk meets the left subtree's leaves before the right subtree's |
| Codes.VisitExtends | main.cpp:144-146 | every path met below a node extends the path to it, by '0' on the left and by '1' on the right |
| Codes.Diverge | main.cpp:145-146 | paths that part with '0' and '1' after a common prefix are not prefixes of each other |
| Codes.VisitsPrefixFree | main.cpp:126-147 | the paths of two different leaf meetings are not prefixes of each other |
| Codes.LeftPrefixFree | main.cpp:146 | the same for two leaves of the left subtree |
| Codes.RightPrefixFree | main.cpp:145 | the same for two leaves of the right subtree |
| Codes.VisitsBinary | main.cpp:145-146 | every path met is made of '0' and '1' |
| Codes.VisitFollow | main.cpp:130-146 | following a met leaf's path from the node, '0' left and '1' right, arrives at that leaf |
| Codes.PushFrame | main.cpp:145-146 | pushing a frame puts its leaves in front of those still pending |
| Codes.LeafStep | main.cpp:136-142 | recording a leaf popped from the stack keeps the final table and shrinks the work left |
| Codes.PushRightPending | main.cpp:145 | pushing the right child's frame adds the right subtree's leaves in front |
| Codes.PushLeftPending | main.cpp:146 | pushing the left child's frame adds the left subtree's leaves in front |
| Codes.InnerStep | main.cpp:143-146 | replacing an inner node by its right and then left child keeps the leaves pending in the same order and shrinks the work left |
| Codes.GenerateCodes | main.cpp:114-149 | the table is the cleared table for root < 0, and otherwise the table of the leaves met left-first from the root |
| Codes.ClearCodes | main.cpp:115 | every entry is empty |
| Codes.Walk | main.cpp:123-148 | the stack loop from a cleared table yields the table of the leaves met from the root |
| Codes.Round | main.cpp:126-147 | one pop-and-process step keeps the final table and shrinks the work left |
| Codes.RecordLeaf | main.cpp:136-142 | a leaf holding a lower-case letter sets that letter's code to its path, or to "0" for the empty path; nothing else changes |
| Codes.CodeTableAt | main.cpp:114-149 | entry i is the code of the last leaf met holding the i-th letter, and empty when none does |
| Codes.CodeTableLetters | main.cpp:114-149 | a letter has a non-empty code exactly when some leaf of the tree holds it |
| Codes.CodeTableBinary | main.cpp:145-146 | every code is made of '0' and '1' |
| Codes.CodeTablePrefixFree | main.cpp:114-149 | no letter's code is a prefix of another letter's code |
| Codes.CodeTableDecodes | main.cpp:114-149 | under an inner root, following a letter's code from the root ends at a leaf holding that letter |
| Pipeline.ReachesChild | main.cpp:95-96 | a child of a node in a subtree is in that subtree |
| Pipeline.ReachedLeafMet | main.cpp:126-147 | every leaf in the subtree of k is met by the walk from k |
| Pipeline.BuiltShape | main.cpp:46-109 | in the built arena children precede parents, slots below n are the leaves of the present letters, slots n..root are inner, and the root is a leaf only for a single letter |
| Pipeline.AllReached | main.cpp:88-105 | every slot up to the root lies in the root's subtree |
| Pipeline.BuiltCodesLetters | main.cpp:186-201 | in the built tree, a letter gets a non-empty code exactly when its count is positive |
| Pipeline.BuiltRootWeight | main.cpp:95-98 | the root weighs as much as all counts together |
| Pipeline.SingleLetterCode | main.cpp:139-140 | with a single letter present, its code is "0" |
| Pipeline.EncodedNothing | main.cpp:191-194 | with every code empty, no bit is emitted |
| Pipeline.HuffmanCodes | main.cpp:181-204 | a letter has a code exactly when it occurs in the text; codes are binary and prefix-free; a single occurring letter gets "0"; the bits are the text's codes in order, and their number is the count-weighted sum of code lengths |

## Left out

- Reading the input file and all printing. This covers the failed-open message, the code-table print, the "nothing to encode" message and the bitstream output. The text is a parameter, and the bits are returned instead of written. A file that cannot be opened leaves all counts zero, which is the same as an empty text here.
- Pipeline.HuffmanCodes: for a text with no letter it returns an empty table and no bits, where the program prints a message and stops.
- Pipeline.HuffmanCodes: states root-to-leaf decoding only through Codes.CodeTableDecodes, which is stated on the arena. The arena is local to the method.
- The guard `nextFree >= MAX_NODES` in the leaf loop (main.cpp:62) is not written. CreateLeafNodes proves that at most 26 leaves are written, so it never fires.
- The guard `curr < MAX_NODES` of the merge loop is kept. BuildEncodingTree requires at most 64 leaves, and under that it never stops the loop early.
- The fallback `return -1` after the merge loop (main.cpp:107-108) is not written. MergeUntilOne proves, through its loop invariant, that the loop ends with exactly one handle left. FinishTree then proves that this handle is 2n-2.
- Counts and weights are unbounded integers. 32-bit overflow of `int` counts is not modelled.
- Optimality of the code (minimum weighted length) is not stated.
- Heap.MinHeap.Push requires `size < MAX_NODES` and `0 <= nodeIdx < MAX_NODES`. The program does not check them. On a full heap, push writes `data[128]`, which is out of bounds (heap.h:70). Both calls (main.cpp:75 and main.cpp:100) pass a handle in range.
- Heap.MinHeap.Pop requires a non-empty heap. The program does not check this. On an empty heap, pop reads `data[-1]` out of bounds, writes only `data[0]` (heap.h:78) and leaves `size` at -1 (heap.h:79).
- `pop` moves the last handle into the root slot (heap.h:78). It does not swap the two; the model follows the code.
- Heap.MinHeap.LessAt has no contract of its own. Its order is stated by Heap.PrecedesIsStrictTotalOrder.
- `std::stack` and `std::string` are modelled as sequences. Their allocation and copying are not modelled.
- The methods LeafForLetter, PushLeaves, PopTwo, WriteParent, MergeLightestTwo, PushParent, MergeUntilOne, PopOnly, FinishTree, ClearCodes, Walk, Round and RecordLeaf are parts of createLeafNodes, buildEncodingTree and generateCodes. They are split out to keep each proof small and change no behaviour.
