# Huffman coding over a binary min-heap

This project models the core of a small Go program that builds Huffman codes.

1. It counts how often each character occurs in a text (`ComputeFrequencies`).
2. It puts one leaf per symbol into a priority queue. The queue is Go's
   `container/heap` driven by a `MinHeap` adapter, whose items remember
   their own slot.
3. It repeatedly pops the two lightest trees and pushes their merge until
   one tree is left (`ComputeHuffmanEncoding`).
4. It walks that tree depth first, writing "0" for a left step and "1" for
   a right step, to get each symbol's codeword (`GetHuffmanEncodingMap`,
   `TraverseHuffmanTree`).

The project has four modules:

- `Heap` (heap.dfy) holds the items and the adapter. The adapter is
  `MinHeap`, a class whose `items` sequence its methods reassign. The slot
  operations are also stated as functions on sequences (`SwapSlots`,
  `PushSlot`, `PopSlot`). The module also re-implements the parts of
  `container/heap` the program uses (`Up`, `Down`, `Fix`, `HeapPush`,
  `HeapPop`, `HeapInit`) as loops over the adapter. Each is proved to
  restore heap order while keeping the index invariant `items[k].index == k`
  and the multiset of (value, priority) entries.
- `HuffmanTree` (huffman_tree.dfy) holds the tree datatype, the code map
  the traversal produces (`CodeMap`), and a decoder (`LeafAt`). Its lemmas
  show the code map's keys and paths. They also show that the codewords
  are prefix-free and that every root-to-leaf path is a codeword. The
  traversal needs only `Shaped` trees, whose leaves have non-empty symbols.
  The builder produces `WellFormed` trees, which are shaped and whose
  inner counts are the sums of their children's (`Summed`).
- `Huffman` (huffman.dfy) holds the builder and the traversal as methods.
  Each is proved against `HuffmanTree`'s functions. The builder's loop is
  proved with a ghost forest: the trees in the heap, with their
  priorities. That forest keeps all the input pairs and their total
  count.
- `Frequencies` (frequencies.dfy) holds the counting loop.

Go's map iteration order is unspecified. The builder therefore takes the
frequency map together with `order`, the sequence in which `range` visits
its keys (`IsOrder`: every key exactly once). Every guarantee about the
encoding holds for every such order. Only the tie-breaking among equal
priorities, and so the codewords themselves, depends on the order.

The same `MinHeap` adapter appears twice in the repository: for tree
payloads in main.go and for string payloads in huffheap/huffheap.go. One
generic class `MinHeap<V>` models both.

## Model

| member | source | states |
|---|---|---|
| Heap.MinHeap.Len | main.go:74 | defines the heap's length as its number of slots, as `len(mh)` does |
| Heap.MinHeap.Less | main.go:76-79 | slot i sorts before slot j exactly when its priority is strictly smaller, so ties give false and no slot sorts before itself |
| Heap.MinHeap.LessIsStrict | huffheap/huffheap.go:38-41 | `Less` compares priorities strictly: it is irreflexive, asymmetric and transitive, and two slots that neither precedes have equal priority; equal priorities never precede each other |
| Heap.MinHeap.Swap | main.go:81-85 | the new slots are the old ones with slots i and j exchanged and restamped with their new indices; the multiset of entries is unchanged |
| Heap.SwapSlots | huffheap/huffheap.go:43-47 | after a swap, slot i holds the old j entry with index i, slot j holds the old i entry with index j, and every other slot is unchanged |
| Heap.MinHeap.Push | main.go:87-92 | the item is appended with index equal to the old length; the entry multiset gains exactly that entry |
| Heap.PushSlot | huffheap/huffheap.go:49-54 | the result is one longer, keeps the old slots as a prefix, and its last slot carries the pushed entry with index n |
| Heap.MinHeap.Pop | main.go:94-101 | the last slot is removed and returned with index -1; the entry multiset loses exactly that entry |
| Heap.PopSlot | huffheap/huffheap.go:56-63 | popping leaves the slots before the last one unchanged and returns the last entry with index -1 |
| Heap.SlotOpsKeepIndexed | huffheap/huffheap.go:43-63 | Swap, Push and Pop each keep every slot's item stamped with its own slot number |
| Heap.MinHeap.Update | main.go:103-108 | rewriting an item in place and calling Fix leaves a valid heap of the same size whose entries are the old ones with that item's entry replaced by the new value and priority; for a popped item (index -1) the heap is unchanged |
| Heap.RootIsMinimal | main.go:142-156 | in heap order the root holds a least priority of the whole heap, which is what the pops at lines 142-143 and 156 take |
| Heap.Up | main.go:153 | container/heap's `up`, used by Push and Fix: from slots that are in heap order except at j, it reaches heap order, keeps every slot indexed, and keeps the number of slots and the entries |
| Heap.Down | main.go:142-143 | container/heap's `down` over the first n slots, used by Pop and Fix: if it moved the item, every pair it covers is in heap order; if it did not, the slots are unchanged; either way every slot stays indexed, the entries and the number of slots are kept, and the slots from n on are untouched |
| Heap.Fix | main.go:107 | after one item's priority changed, Fix (down, then up if down did not move it) restores heap order and the index invariant without changing the entries |
| Heap.HeapInit | main.go:139 | Init turns any indexed slot sequence into a valid heap with the same entries |
| Heap.HeapPush | main.go:153 | a push keeps the heap valid, adds one slot and adds exactly the pushed entry |
| Heap.HeapPop | main.go:142-143 | a pop keeps the heap valid and removes one slot; the removed entry was the root, has a least priority among all entries, and comes back with index -1 |
| HuffmanTree.Tree.Symbol | main.go:38-40 | a leaf yields its symbol; in a tree whose leaves have non-empty symbols, the empty symbol marks exactly the inner nodes |
| HuffmanTree.CodeMap | main.go:120-127 | the reference map the traversal is proved against; every codeword in it extends the starting prefix |
| HuffmanTree.FreqIsLeafTotal | main.go:145-150 | in a tree built by summing children, the root count is the total count of its leaves |
| HuffmanTree.CodeMapKeys | main.go:120-127 | the traversal assigns a codeword to exactly the symbols at the leaves |
| HuffmanTree.CodeMapPaths | main.go:120-127 | every codeword extends the starting prefix, and the rest of it is a path from the tree to a leaf holding that symbol |
| HuffmanTree.LeafAtNoExtension | main.go:120-127 | a path that ends on a leaf cannot be extended to reach another leaf |
| HuffmanTree.PrefixCodesEqual | main.go:120-127 | if one codeword is a prefix of another, both belong to the same symbol |
| HuffmanTree.CodeMapPrefixFree | main.go:120-127 | the codewords the traversal assigns are prefix-free |
| HuffmanTree.LeafAtIsLeafSymbol | main.go:120-127 | decoding any path that ends on a leaf yields a symbol of that tree |
| HuffmanTree.CodeMapComplete | main.go:120-127 | when leaf symbols are distinct, every root-to-leaf path is exactly the codeword of its leaf's symbol |
| HuffmanTree.SingleLeafCode | main.go:120-122 | a tree with one leaf is that leaf, and its symbol gets the empty codeword |
| HuffmanTree.UniqueTransfer | main.go:129-138 | helper lemma: distinct symbols stay distinct under any rearrangement of the pairs, used to carry the distinct map keys into the built tree |
| HuffmanTree.TotalConcat | main.go:147 | helper lemma: the total count of two concatenated pair lists is the sum of their totals, used for the summed counts of a merged node |
| Huffman.Pairs | main.go:133-138 | defines the pairs a visit in the given order yields: slot k holds the k-th visited key with its count; see PairsOfOrder |
| Huffman.PairsOfOrder | main.go:133-138 | a visit of a map without an empty key yields distinct non-empty symbols, exactly the map's entries, and as many pairs as keys |
| Huffman.DistinctCard | main.go:133-138 | helper lemma: a repetition-free key sequence has as many elements as its set of keys, used to show the visit yields one pair per key |
| Huffman.Seed | main.go:135-137 | defines the seed forest: one leaf per visited pair, with the pair's count as priority; see SeedForest |
| Huffman.SeedForest | main.go:133-139 | the seed forest holds exactly the input pairs and their total count |
| Huffman.LeafSlots | main.go:133-138 | slot i holds a leaf for the i-th visited key, its count as priority and i as index |
| Huffman.SeedHeap | main.go:130-139 | after seeding and Init, the heap is valid, has one slot per key, and holds the seed forest |
| Huffman.Merge | main.go:145-152 | defines the merged entry: an inner node with the empty symbol, the first popped tree on the left, and its count, equal to its priority, the sum of its children's counts; see MergeKeepsForest |
| Huffman.PopTwo | main.go:142-143 | the two pops remove two slots; the first has a least priority of the heap and the second a least priority of what remains |
| Huffman.MergeTwo | main.go:141-154 | one iteration shrinks the heap by one; the heap's entries are the old ones without the two popped entries and with their merge; they are the two lightest; the ghost forest invariant is kept |
| Huffman.MergeKeepsForest | main.go:145-153 | replacing two trees by their merge keeps every tree well formed, keeps all input pairs at the leaves, and keeps the priority sum |
| Huffman.TakeTree | main.go:142-143 | an entry popped from a heap holding a forest is one of its trees; what remains is the forest without it, minus its leaves and its priority |
| Huffman.LastTree | main.go:156-157 | when one entry is left, its tree holds every input pair and the input total |
| Huffman.BuildHuffmanTree | main.go:130-157 | the final tree is well formed, has exactly the input pairs as leaves, and a root count equal to the input total; the loop ran len(freqs) - 1 times |
| Huffman.TraverseHuffmanTree | main.go:120-127 | the traversal adds exactly the code map of the subtree under the prefix to the encoding it was given |
| Huffman.GetHuffmanEncodingMap | main.go:112-118 | the encoding has exactly the tree's symbols as keys; each codeword decodes to its symbol; the codewords are prefix-free; a single leaf gets the empty codeword; with distinct symbols every root-to-leaf path is a codeword |
| Huffman.TreeOfMap | main.go:129-162 | the built tree holds each map entry once as a leaf and nothing else; with one entry it is that leaf |
| Huffman.ComputeHuffmanEncoding | main.go:129-162 | the encoding's keys are the frequency map's keys; the codewords are prefix-free and decode back to their symbols through the tree that was built; every leaf path is a codeword; the root count is the total count; one symbol gets "" |
| Frequencies.ComputeFrequencies | main.go:164-179 | the keys are exactly the one-character strings of characters in the input, and each count is that character's number of occurrences |

## Left out

- main() is left out. It only prints the frequencies and the codewords in sorted key order.
- huffmantree/huffmantree.go is not part of this model. main.go does not import it, and main.go declares its own `TreeNode`.
- Pointers and aliasing are left out. Heap items and tree nodes are values, not `*FreqHeapItem` and `*TreeNode`. A popped item's index -1 is on the returned value. The merge links the two popped trees by value, which is what main.go does with its `&node1` copies.
- Go's map iteration order is a parameter, `order`, constrained only by `IsOrder`.
- Huffman.ComputeHuffmanEncoding and Huffman.BuildHuffmanTree require a non-empty map. On an empty map Go's final `heap.Pop` runs past the slice and panics.
- Huffman.ComputeHuffmanEncoding and Huffman.BuildHuffmanTree require that "" is not a key. Go's traversal takes a leaf with the empty symbol for an inner node and dereferences its nil children; the traversal's own requirement, `Shaped`, says exactly that no leaf has the empty symbol. `ComputeFrequencies` never produces that key.
- Heap.HeapInit requires the slots to be indexed on entry. Go's `Init` does not demand it, but without it the indices after `Init` would not match the slots. The builder fills the slots with their indices first.
- Heap.MinHeap.Update requires the item to be either popped (index -1) or at the slot its index names. A stale index that names another slot or lies past the end is caller misuse and is excluded. For an index past the end that is greater than 0, Go's `up` would index out of range; index 0 on an empty heap is a no-op in Go, and the model excludes it with the other stale indices.
- Heap.MinHeap.Pop, Heap.PopSlot and Heap.HeapPop require a non-empty heap. On an empty heap Go panics: the adapter at `old[n-1]` (main.go:97, huffheap/huffheap.go:59), and container/heap's `Pop` already at `Swap(0, -1)`. Both are Go index-out-of-range runtime errors. The builder pops an empty heap only on an empty map, which its requirement above excludes.
- Integer overflow of Go's `int` is not modelled. Counts and sums are unbounded integers, so the guarantees about Huffman.BuildHuffmanTree and Huffman.ComputeHuffmanEncoding hold only while the total count fits in the platform's `int` (32 bits on 32-bit platforms, 64 bits elsewhere). Counts from `ComputeFrequencies` fit unless the input has at least 2^31 or 2^63 characters, but `ComputeHuffmanEncoding` accepts any counts. For example, with {a: 2^62, b: 2^62, c: 2^62 + 5} on a 64-bit platform, the sum at main.go:147 wraps to -2^63. Go then pops the merged node first, so a and b get "00" and "01" and c gets "1". The model's sum, 2^63, is larger than c, so the model gives c "0" and a and b "10" and "11".
- ComputeFrequencies ranges over `input` as Go does over a string, one rune at a time. The model's `string` is a sequence of code points, so UTF-8 decoding is left out.
- Frequencies.ComputeFrequencies: the counts are not proved to add up to the input length. That follows from each count being the character's multiplicity.
- Optimality of the code, in the sense of minimal weighted path length, is not stated or proved. The program does not promise it either.
- The comment at main.go:77 and huffheap/huffheap.go:39 says Less uses "greater than". The code uses `<`, which the model follows.
- Heap.MinHeap.FromSlots, the constructor, stands for Go's `make(MinHeap, n)` followed by filling the slots.
