/** The Huffman builder and encoder of main.go: seed the heap with one leaf
    per symbol, merge the two lightest trees until one is left, and walk the
    result to read off the codewords. */
module Huffman {
  import opened Heap
  import opened HuffmanTree

  /** What the builder accepts: symbols are non-empty (the traversal tells a
      leaf by its non-empty symbol) and pairwise distinct (they are the keys
      of Go's frequency map). */
  ghost predicate ValidAlphabet(freqs: seq<(string, int)>)
  {
    (forall k :: 0 <= k < |freqs| ==> freqs[k].0 != "") && UniqueSymbols(freqs)
  }

  /** An order in which Go's `range` may visit the frequency map: every
      key exactly once. The model takes it as a parameter, since Go leaves
      the order unspecified. */
  ghost predicate IsOrder(order: seq<string>, freqs: map<string, int>)
  {
    (forall k :: 0 <= k < |order| ==> order[k] in freqs) &&
    (forall key :: key in freqs ==> key in order) &&
    (forall i, j :: 0 <= i < j < |order| ==> order[i] != order[j])
  }

  /** The (symbol, count) pairs in the order the map is visited. */
  function Pairs(freqs: map<string, int>, order: seq<string>): (ps: seq<(string, int)>)
    requires forall k :: 0 <= k < |order| ==> order[k] in freqs
    ensures |ps| == |order|
    ensures forall k :: 0 <= k < |order| ==> ps[k] == (order[k], freqs[order[k]])
  {
    seq(|order|, k requires 0 <= k < |order| => (order[k], freqs[order[k]]))
  }

  /** Visiting a map with no empty key gives distinct, non-empty symbols,
      and exactly the map's entries. */
  lemma PairsOfOrder(freqs: map<string, int>, order: seq<string>)
    requires IsOrder(order, freqs) && "" !in freqs
    ensures ValidAlphabet(Pairs(freqs, order))
    ensures forall p :: p in Pairs(freqs, order) <==> p.0 in freqs && p.1 == freqs[p.0]
    ensures |order| == |freqs|
  {
    var ps := Pairs(freqs, order);
    forall p: (string, int) | p.0 in freqs && p.1 == freqs[p.0]
      ensures p in ps
    {
      var k :| 0 <= k < |order| && order[k] == p.0;
      assert ps[k] == p;
    }
    OrderLength(freqs, order);
  }

  /** Go's `range` visits as many keys as the map has. */
  lemma OrderLength(freqs: map<string, int>, order: seq<string>)
    requires IsOrder(order, freqs)
    ensures |order| == |freqs|
  {
    DistinctCard(order);
    assert (set x | x in order) == freqs.Keys;
  }

  /** A sequence without repetitions has as many elements as its set. */
  lemma {:induction false} DistinctCard(s: seq<string>)
    requires forall i, j :: 0 <= i < j < |s| ==> s[i] != s[j]
    ensures |set x | x in s| == |s|
    decreases |s|
  {
    if s == [] {
      assert (set x | x in s) == {};
    } else {
      var init := s[..|s| - 1];
      DistinctCard(init);
      assert (set x | x in s) == (set x | x in init) + {s[|s| - 1]};
      assert s[|s| - 1] !in init;
    }
  }

  /** The leaf pairs of all trees of a forest. */
  ghost function ForestLeaves(f: seq<(Tree, int)>): multiset<(string, int)>
  {
    if f == [] then multiset{} else ForestLeaves(f[..|f| - 1]) + multiset(LeafPairs(f[|f| - 1].0))
  }

  /** The sum of the priorities of a forest. */
  function ForestTotal(f: seq<(Tree, int)>): int
  {
    if f == [] then 0 else ForestTotal(f[..|f| - 1]) + f[|f| - 1].1
  }

  /** The forest the builder starts from: one leaf per input pair, with the
      count as priority. */
  function Seed(freqs: seq<(string, int)>): (f: seq<(Tree, int)>)
    ensures |f| == |freqs|
    ensures forall k :: 0 <= k < |freqs| ==> f[k] == (Leaf(freqs[k].0, freqs[k].1), freqs[k].1)
  {
    seq(|freqs|, k requires 0 <= k < |freqs| => (Leaf(freqs[k].0, freqs[k].1), freqs[k].1))
  }

  lemma {:induction false} ForestConcat(a: seq<(Tree, int)>, b: seq<(Tree, int)>)
    ensures ForestLeaves(a + b) == ForestLeaves(a) + ForestLeaves(b)
    ensures ForestTotal(a + b) == ForestTotal(a) + ForestTotal(b)
    decreases |b|
  {
    if b != [] {
      assert (a + b)[..|a + b| - 1] == a + b[..|b| - 1];
      ForestConcat(a, b[..|b| - 1]);
    } else {
      assert a + b == a;
    }
  }

  /** The seed forest holds exactly the input pairs and their total count. */
  lemma {:induction false} SeedForest(freqs: seq<(string, int)>)
    ensures ForestLeaves(Seed(freqs)) == multiset(freqs)
    ensures ForestTotal(Seed(freqs)) == Total(freqs)
    decreases |freqs|
  {
    if freqs != [] {
      var init := freqs[..|freqs| - 1];
      SeedForest(init);
      assert Seed(freqs)[..|freqs| - 1] == Seed(init);
      assert freqs == init + [freqs[|freqs| - 1]];
    }
  }

  /** The seed forest's trees are leaves with their count as priority. */
  lemma SeedWellFormed(freqs: seq<(string, int)>)
    requires ValidAlphabet(freqs)
    ensures forall e :: e in Seed(freqs) ==> WellFormed(e.0) && e.1 == e.0.freq
  {
    forall e | e in Seed(freqs)
      ensures WellFormed(e.0) && e.1 == e.0.freq
    {
      var k :| 0 <= k < |freqs| && Seed(freqs)[k] == e;
    }
  }

  /** Taking tree k out of a forest takes away its leaves, its priority and
      one tree. */
  lemma RemoveTree(f: seq<(Tree, int)>, k: int)
    requires 0 <= k < |f|
    ensures multiset(f) == multiset(f[..k] + f[k + 1..]) + multiset{f[k]}
    ensures ForestLeaves(f) == ForestLeaves(f[..k] + f[k + 1..]) + multiset(LeafPairs(f[k].0))
    ensures ForestTotal(f) == ForestTotal(f[..k] + f[k + 1..]) + f[k].1
    ensures forall e :: e in f[..k] + f[k + 1..] ==> e in f
  {
    var a, x, b := f[..k], f[k], f[k + 1..];
    var g := (a + [x]) + b;
    assert f == g;
    RemoveLeaves(a, x, b);
    RemoveEntry(a, x, b);
  }

  /** The trees of a forest split around one tree. */
  lemma RemoveEntry(a: seq<(Tree, int)>, x: (Tree, int), b: seq<(Tree, int)>)
    ensures multiset((a + [x]) + b) == multiset(a + b) + multiset{x}
    ensures forall e :: e in a + b ==> e in (a + [x]) + b
  {
  }

  /** Leaves and priorities of a forest split around one tree. */
  lemma RemoveLeaves(a: seq<(Tree, int)>, x: (Tree, int), b: seq<(Tree, int)>)
    ensures ForestLeaves((a + [x]) + b) == ForestLeaves(a + b) + multiset(LeafPairs(x.0))
    ensures ForestTotal((a + [x]) + b) == ForestTotal(a + b) + x.1
  {
    ForestConcat(a + [x], b);
    ForestAppend(a, x);
    ForestConcat(a, b);
  }

  lemma MultisetCancel<T>(a: multiset<T>, b: multiset<T>, x: T)
    requires a + multiset{x} == b + multiset{x}
    ensures a == b
  {
    assert forall y :: a[y] == (a + multiset{x})[y] - multiset{x}[y];
  }

  lemma MapUnionAssoc(a: map<string, string>, b: map<string, string>, c: map<string, string>)
    ensures (a + b) + c == a + (b + c)
  {
  }

  /** What the builder's loop keeps about the trees in the heap: each is
      well formed with its count as priority, together they hold exactly the
      input pairs, and their priorities add up to the input total. */
  ghost predicate ForestInv(f: seq<(Tree, int)>, freqs: seq<(string, int)>)
  {
    (forall e :: e in f ==> WellFormed(e.0) && e.1 == e.0.freq) &&
    ForestLeaves(f) == multiset(freqs) &&
    ForestTotal(f) == Total(freqs)
  }

  /** Adding one tree to a forest adds its leaves and its priority. */
  lemma ForestAppend(f: seq<(Tree, int)>, p: (Tree, int))
    ensures ForestLeaves(f + [p]) == ForestLeaves(f) + multiset(LeafPairs(p.0))
    ensures ForestTotal(f + [p]) == ForestTotal(f) + p.1
  {
    assert (f + [p])[..|f|] == f;
  }

  /** The merged node: a and b as children, first on the left, carrying
      their summed count both as its own count and as its priority. */
  function Merge(a: Tree, b: Tree): (p: (Tree, int))
    ensures p.0.Node? && p.0.Symbol() == "" && p.0.left == a && p.0.right == b
    ensures p.0.freq == a.freq + b.freq && p.1 == p.0.freq
  {
    (Node(a.freq + b.freq, a, b), a.freq + b.freq)
  }

  lemma MergeLeaves(f2: seq<(Tree, int)>, a: Tree, b: Tree, leaves: multiset<(string, int)>)
    requires leaves == ForestLeaves(f2) + multiset(LeafPairs(a)) + multiset(LeafPairs(b))
    ensures ForestLeaves(f2 + [Merge(a, b)]) == leaves
  {
    ForestAppend(f2, Merge(a, b));
    assert LeafPairs(Merge(a, b).0) == LeafPairs(a) + LeafPairs(b);
  }

  lemma MergeTotal(f2: seq<(Tree, int)>, a: Tree, b: Tree, total: int)
    requires total == ForestTotal(f2) + a.freq + b.freq
    ensures ForestTotal(f2 + [Merge(a, b)]) == total
  {
    ForestAppend(f2, Merge(a, b));
  }

  lemma MergeWellFormed(f2: seq<(Tree, int)>, a: Tree, b: Tree)
    requires forall e :: e in f2 ==> WellFormed(e.0) && e.1 == e.0.freq
    requires WellFormed(a) && WellFormed(b)
    ensures forall e :: e in f2 + [Merge(a, b)] ==> WellFormed(e.0) && e.1 == e.0.freq
  {
    forall e | e in f2 + [Merge(a, b)]
      ensures WellFormed(e.0) && e.1 == e.0.freq
    {
      if e !in f2 {
        assert e == Merge(a, b);
      }
    }
  }

  /** Popping entry x off a heap that holds the forest: x is one of its
      trees, and what stays in the heap is the forest without it. */
  lemma TakeTree(forest: seq<(Tree, int)>, rest: multiset<(Tree, int)>, x: (Tree, int))
    returns (left: seq<(Tree, int)>)
    requires multiset(forest) == rest + multiset{x}
    ensures x in forest && |left| == |forest| - 1
    ensures multiset(left) == rest
    ensures forall e :: e in left ==> e in forest
    ensures ForestLeaves(forest) == ForestLeaves(left) + multiset(LeafPairs(x.0))
    ensures ForestTotal(forest) == ForestTotal(left) + x.1
  {
    assert x in multiset(forest);
    var k :| 0 <= k < |forest| && forest[k] == x;
    left := forest[..k] + forest[k + 1..];
    RemoveTree(forest, k);
    MultisetCancel(rest, multiset(left), x);
  }

  /** One merge keeps the loop invariant: tree a, taken out of f leaving f1,
      and tree b, taken out of f1 leaving f2, come back as the two children
      of one new node whose priority is its count. */
  lemma MergeKeepsForest(f: seq<(Tree, int)>, f1: seq<(Tree, int)>, f2: seq<(Tree, int)>,
                         a: (Tree, int), b: (Tree, int), freqs: seq<(string, int)>)
    requires ForestInv(f, freqs)
    requires a in f && b in f1
    requires forall e :: e in f1 ==> e in f
    requires forall e :: e in f2 ==> e in f1
    requires ForestLeaves(f) == ForestLeaves(f1) + multiset(LeafPairs(a.0))
    requires ForestLeaves(f1) == ForestLeaves(f2) + multiset(LeafPairs(b.0))
    requires ForestTotal(f) == ForestTotal(f1) + a.1
    requires ForestTotal(f1) == ForestTotal(f2) + b.1
    ensures ForestInv(f2 + [Merge(a.0, b.0)], freqs)
  {
    MergeLeaves(f2, a.0, b.0, multiset(freqs));
    MergeTotal(f2, a.0, b.0, Total(freqs));
    MergeWellFormed(f2, a.0, b.0);
  }

  /** The ghost side of one merge: entries a and b were popped in turn off
      a heap holding the forest, leaving rest; the trees left,
      with the merged node added, still form a forest of the input. */
  lemma MergeForest(forest: seq<(Tree, int)>, freqs: seq<(string, int)>,
                    rest: multiset<(Tree, int)>, a: (Tree, int), b: (Tree, int))
    returns (merged: seq<(Tree, int)>)
    requires ForestInv(forest, freqs)
    requires multiset(forest) == rest + multiset{b} + multiset{a}
    ensures multiset(merged) == rest + multiset{Merge(a.0, b.0)}
    ensures |merged| == |forest| - 1
    ensures ForestInv(merged, freqs)
  {
    var f1 := TakeTree(forest, rest + multiset{b}, a);
    var f2 := TakeTree(f1, rest, b);
    MergeKeepsForest(forest, f1, f2, a, b, freqs);
    merged := f2 + [Merge(a.0, b.0)];
  }

  /** The item Go pushes for a merge carries the merged node. */
  lemma MergedEntry(x: Item<Tree>, a: Tree, b: Tree)
    requires x.value == Node(a.freq + b.freq, a, b) && x.priority == a.freq + b.freq
    ensures Entry(x) == Merge(a, b)
  {
  }

  /** When the heap holds one entry, its tree carries every input pair and
      the input total. */
  lemma LastTree(forest: seq<(Tree, int)>, freqs: seq<(string, int)>, x: (Tree, int))
    requires ForestInv(forest, freqs) && multiset(forest) == multiset{x}
    ensures WellFormed(x.0)
    ensures multiset(LeafPairs(x.0)) == multiset(freqs)
    ensures x.0.freq == Total(freqs)
  {
    assert forest == [x] by {
      assert |forest| == 1;
      assert forest[0] in multiset(forest);
    }
    ForestAppend([], x);
    assert [] + [x] == forest;
    assert x in forest;
  }

  /** Go's `TraverseHuffmanTree`: depth first, left before right, writing
      each leaf's accumulated path into the shared encoding map. */
  method TraverseHuffmanTree(n: Tree, prefix: string, encoding: map<string, string>)
    returns (result: map<string, string>)
    requires Shaped(n)
    ensures result == encoding + CodeMap(n, prefix)
    decreases n
  {
    if n.Symbol() != "" {
      result := encoding[n.Symbol() := prefix];
      assert result == encoding + map[n.Symbol() := prefix];
    } else {
      var afterLeft := TraverseHuffmanTree(n.left, prefix + "0", encoding);
      result := TraverseHuffmanTree(n.right, prefix + "1", afterLeft);
      MapUnionAssoc(encoding, CodeMap(n.left, prefix + "0"), CodeMap(n.right, prefix + "1"));
    }
  }

  /** Go's `GetHuffmanEncodingMap`: traverse from the root with the empty
      prefix into an empty map. */
  method GetHuffmanEncodingMap(hf: Tree) returns (encoding: map<string, string>)
    requires Shaped(hf)
    ensures encoding.Keys == SymbolsOf(LeafPairs(hf))
    ensures forall s :: s in encoding ==> LeafAt(hf, encoding[s]) == Some(s)
    ensures PrefixFree(encoding)
    ensures hf.Leaf? ==> encoding == map[hf.sym := ""]
    ensures UniqueSymbols(LeafPairs(hf)) ==>
      forall path :: LeafAt(hf, path).Some? ==>
        LeafAt(hf, path).value in encoding && encoding[LeafAt(hf, path).value] == path
  {
    encoding := TraverseHuffmanTree(hf, "", map[]);
    assert encoding == CodeMap(hf, "");
    CodeMapKeys(hf, "");
    CodeMapPrefixFree(hf, "");
    forall s | s in encoding
      ensures LeafAt(hf, encoding[s]) == Some(s)
    {
      CodeMapPaths(hf, "", s);
      assert encoding[s][0..] == encoding[s];
    }
    if UniqueSymbols(LeafPairs(hf)) {
      forall path | LeafAt(hf, path).Some?
        ensures LeafAt(hf, path).value in encoding && encoding[LeafAt(hf, path).value] == path
      {
        CodeMapComplete(hf, "", path);
        assert "" + path == path;
      }
    }
  }

  /** The slot-filling loop of Go's `ComputeHuffmanEncoding`: slot i holds
      a leaf for the i-th key visited, its count as priority and i as
      index. */
  method LeafSlots(freqs: map<string, int>, order: seq<string>) returns (slots: seq<Item<Tree>>)
    requires forall k :: 0 <= k < |order| ==> order[k] in freqs
    ensures |slots| == |order| && Indexed(slots)
    ensures Entries(slots) == Seed(Pairs(freqs, order))
  {
    ghost var ps := Pairs(freqs, order);
    slots := [];
    var i := 0;
    while i < |order|
      invariant 0 <= i <= |order| && |slots| == i
      invariant forall k :: 0 <= k < i ==> slots[k] == Item(Leaf(ps[k].0, ps[k].1), ps[k].1, k)
    {
      var value := order[i];
      var priority := freqs[value];
      var leafNode := Leaf(value, priority);
      slots := slots + [Item(leafNode, priority, i)];
      i := i + 1;
    }
  }

  /** The first phase of Go's `ComputeHuffmanEncoding`: one heap slot per
      input pair, holding a leaf with the pair's count as priority and its
      position as index, then `heap.Init`. The ghost result is the seed
      forest the heap holds. */
  method SeedHeap(freqs: map<string, int>, order: seq<string>)
    returns (pq: MinHeap<Tree>, ghost forest: seq<(Tree, int)>)
    requires IsOrder(order, freqs) && "" !in freqs
    ensures fresh(pq) && pq.Valid() && |pq.items| == |order|
    ensures forest == Seed(Pairs(freqs, order)) && Bag(pq.items) == multiset(forest)
    ensures ForestInv(forest, Pairs(freqs, order)) && |forest| == |order|
  {
    ghost var ps := Pairs(freqs, order);
    var slots := LeafSlots(freqs, order);
    pq := new MinHeap<Tree>.FromSlots(slots);
    forest := Seed(ps);
    PairsOfOrder(freqs, order);
    SeedForest(ps);
    SeedWellFormed(ps);
    HeapInit(pq);
  }

  /** The two `heap.Pop` calls that open each iteration of the builder's
      loop: the entry of least priority, then the least of the rest. */
  method PopTwo(pq: MinHeap<Tree>) returns (item1: Item<Tree>, item2: Item<Tree>)
    requires pq.Valid() && |pq.items| >= 2
    modifies pq
    ensures pq.Valid() && |pq.items| == |old(pq.items)| - 2
    ensures Bag(old(pq.items)) == Bag(pq.items) + multiset{Entry(item2)} + multiset{Entry(item1)}
    ensures forall e :: e in Bag(old(pq.items)) ==> item1.priority <= e.1
    ensures forall e :: e in Bag(old(pq.items)) - multiset{Entry(item1)} ==> item2.priority <= e.1
  {
    item1 := HeapPop(pq);
    item2 := HeapPop(pq);
  }

  /** One iteration of the builder's loop: pop the two entries of least
      priority, merge their trees (the first popped on the left) under a
      new node with the summed count, and push that node with the sum as
      priority. The heap shrinks by one and keeps holding a forest of the
      input pairs. */
  method MergeTwo(pq: MinHeap<Tree>, ghost forest: seq<(Tree, int)>, ghost freqs: seq<(string, int)>)
    returns (item1: Item<Tree>, item2: Item<Tree>, ghost forest': seq<(Tree, int)>)
    requires pq.Valid() && |pq.items| >= 2
    requires Bag(pq.items) == multiset(forest) && ForestInv(forest, freqs)
    modifies pq
    ensures pq.Valid() && |pq.items| == |old(pq.items)| - 1
    ensures Bag(pq.items) == multiset(forest') && ForestInv(forest', freqs)
    ensures |forest'| == |forest| - 1
    ensures forall e :: e in Bag(old(pq.items)) ==> item1.priority <= e.1
    ensures forall e :: e in Bag(old(pq.items)) - multiset{Entry(item1)} ==> item2.priority <= e.1
    ensures Bag(pq.items) == Bag(old(pq.items)) - multiset{Entry(item1)} - multiset{Entry(item2)}
                             + multiset{Merge(item1.value, item2.value)}
  {
    item1, item2 := PopTwo(pq);
    ghost var rest := Bag(pq.items);

    var node1 := item1.value;
    var node2 := item2.value;
    var sum := node1.freq + node2.freq;
    var newParent := Node(sum, node1, node2);
    var newItem := Item(newParent, sum, 0);
    MergedEntry(newItem, node1, node2);
    forest' := MergeForest(forest, freqs, rest, Entry(item1), Entry(item2));
    HeapPush(pq, newItem);
    BagTrade(Bag(old(pq.items)), rest, Bag(pq.items), Entry(item1), Entry(item2), Entry(newItem));
  }

  /** Two entries leave a bag and one enters it. */
  lemma BagTrade<E>(before: multiset<E>, rest: multiset<E>, after: multiset<E>, e1: E, e2: E, m: E)
    requires before == rest + multiset{e2} + multiset{e1}
    requires after == rest + multiset{m}
    ensures after == before - multiset{e1} - multiset{e2} + multiset{m}
  {
    assert before - multiset{e1} == rest + multiset{e2};
  }

  /** The build phase of Go's `ComputeHuffmanEncoding`: seed the heap with
      one leaf per pair, then pop two, merge them under a new inner node
      (first popped on the left) and push the merge back, until one tree is
      left. */
  method BuildHuffmanTree(freqs: map<string, int>, order: seq<string>) returns (root: Tree, ghost merges: nat)
    requires |freqs| > 0 && IsOrder(order, freqs) && "" !in freqs
    ensures WellFormed(root)
    ensures multiset(LeafPairs(root)) == multiset(Pairs(freqs, order))
    ensures root.freq == Total(Pairs(freqs, order))
    ensures merges == |freqs| - 1
  {
    ghost var ps := Pairs(freqs, order);
    OrderLength(freqs, order);
    var pq;
    ghost var forest;
    pq, forest := SeedHeap(freqs, order);
    merges := 0;
    while pq.Len() > 1
      invariant pq.Valid() && |pq.items| >= 1
      invariant Bag(pq.items) == multiset(forest)
      invariant ForestInv(forest, ps)
      invariant merges + |forest| == |freqs|
      decreases |pq.items|
    {
      var item1, item2;
      item1, item2, forest := MergeTwo(pq, forest, ps);
      merges := merges + 1;
    }

    var item := HeapPop(pq);
    LastTree(forest, ps, Entry(item));
    root := item.value;
  }

  lemma SameElements(ps: seq<(string, int)>, qs: seq<(string, int)>)
    requires multiset(ps) == multiset(qs)
    ensures forall p :: p in ps <==> p in qs
  {
    forall p: (string, int) ensures p in ps <==> p in qs {
      assert p in multiset(ps) <==> p in multiset(qs);
    }
  }

  /** A tree whose leaves hold the pairs of a map visited in some order
      holds each entry of the map once; with one entry it is that leaf. */
  lemma TreeOfMap(freqs: map<string, int>, order: seq<string>, root: Tree)
    requires IsOrder(order, freqs) && "" !in freqs && WellFormed(root)
    requires multiset(LeafPairs(root)) == multiset(Pairs(freqs, order))
    ensures UniqueSymbols(LeafPairs(root))
    ensures forall p :: p in LeafPairs(root) <==> p.0 in freqs && p.1 == freqs[p.0]
    ensures SymbolsOf(LeafPairs(root)) == freqs.Keys
    ensures |freqs| == 1 ==> forall key :: key in freqs ==> root == Leaf(key, freqs[key])
  {
    var ps := Pairs(freqs, order);
    PairsOfOrder(freqs, order);
    UniqueTransfer(ps, LeafPairs(root));
    SameElements(ps, LeafPairs(root));
    assert SymbolsOf(LeafPairs(root)) == freqs.Keys by {
      forall key | key in freqs ensures key in SymbolsOf(LeafPairs(root)) {
        assert (key, freqs[key]) in LeafPairs(root);
      }
    }
    if |freqs| == 1 {
      SingleEntryTree(freqs, order, root);
    }
  }

  lemma SingleEntryTree(freqs: map<string, int>, order: seq<string>, root: Tree)
    requires IsOrder(order, freqs) && "" !in freqs && WellFormed(root) && |freqs| == 1
    requires multiset(LeafPairs(root)) == multiset(Pairs(freqs, order))
    ensures forall key :: key in freqs ==> root == Leaf(key, freqs[key])
  {
    var ps := Pairs(freqs, order);
    PairsOfOrder(freqs, order);
    assert ps == [(order[0], freqs[order[0]])];
    assert LeafPairs(root) == ps by {
      assert |LeafPairs(root)| == 1;
      assert LeafPairs(root)[0] in multiset(LeafPairs(root));
    }
    SingleLeafCode(root, order[0], freqs[order[0]]);
    forall key | key in freqs ensures root == Leaf(key, freqs[key]) {
      assert key in order;
    }
  }

  /** Go's `ComputeHuffmanEncoding`: build the tree, then read the codewords
      off it. The ghost result is the tree that was built. */
  method ComputeHuffmanEncoding(freqs: map<string, int>, order: seq<string>)
    returns (encoding: map<string, string>, ghost root: Tree)
    requires |freqs| > 0 && IsOrder(order, freqs) && "" !in freqs
    ensures encoding.Keys == freqs.Keys
    ensures PrefixFree(encoding)
    ensures forall s :: s in encoding ==> LeafAt(root, encoding[s]) == Some(s)
    ensures forall path :: LeafAt(root, path).Some? ==>
      LeafAt(root, path).value in encoding && encoding[LeafAt(root, path).value] == path
    ensures WellFormed(root) && UniqueSymbols(LeafPairs(root))
    ensures forall p :: p in LeafPairs(root) <==> p.0 in freqs && p.1 == freqs[p.0]
    ensures root.freq == Total(Pairs(freqs, order))
    ensures |freqs| == 1 ==> forall key :: key in freqs ==> encoding == map[key := ""]
  {
    var tree;
    ghost var merges;
    tree, merges := BuildHuffmanTree(freqs, order);
    root := tree;
    TreeOfMap(freqs, order, root);
    encoding := GetHuffmanEncodingMap(tree);
  }
}
