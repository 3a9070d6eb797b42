/** Huffman trees and the codeword map read off them: the value-level
    definitions the builder and the traversal are proved against. */
module HuffmanTree {

  datatype Option<T> = None | Some(value: T)

  /** A tree node. Leaves carry a symbol and its count; an inner node carries
      the summed count of its children and, as Go's `TreeNode` does, the
      empty symbol. */
  datatype Tree = Leaf(sym: string, freq: int) | Node(freq: int, left: Tree, right: Tree)
  {
    /** Go's `Symbol()`: the empty string marks an inner node. In a tree
        whose leaves carry non-empty symbols, that test is exact. */
    function Symbol(): (s: string)
      ensures Shaped(this) ==> (s == "" <==> Node?)
      ensures Leaf? ==> s == sym
      ensures Node? ==> s == ""
    {
      if Leaf? then sym else ""
    }
  }

  /** Every leaf has a non-empty symbol: the shape the traversal needs,
      since it takes the empty symbol for an inner node. */
  ghost predicate Shaped(t: Tree)
  {
    match t
    case Leaf(s, _) => s != ""
    case Node(_, l, r) => Shaped(l) && Shaped(r)
  }

  /** Every inner node's count is the sum of its children's. */
  ghost predicate Summed(t: Tree)
  {
    match t
    case Leaf(_, _) => true
    case Node(f, l, r) => f == l.freq + r.freq && Summed(l) && Summed(r)
  }

  /** A tree as the builder makes it: shaped, with summed counts. */
  ghost predicate WellFormed(t: Tree)
  {
    Shaped(t) && Summed(t)
  }

  /** The (symbol, count) pairs at the leaves, left to right. */
  function LeafPairs(t: Tree): (ps: seq<(string, int)>)
    ensures |ps| >= 1
  {
    match t
    case Leaf(s, f) => [(s, f)]
    case Node(_, l, r) => LeafPairs(l) + LeafPairs(r)
  }

  function SymbolsOf(ps: seq<(string, int)>): set<string>
  {
    set e | e in ps :: e.0
  }

  /** Sum of the counts. */
  function Total(ps: seq<(string, int)>): int
  {
    if ps == [] then 0 else Total(ps[..|ps| - 1]) + ps[|ps| - 1].1
  }

  /** No symbol occurs twice. */
  ghost predicate UniqueSymbols(ps: seq<(string, int)>)
  {
    forall i, j :: 0 <= i < j < |ps| ==> ps[i].0 != ps[j].0
  }

  /** What Go's traversal writes into the encoding map when started at t
      with the given prefix: each leaf's symbol gets the accumulated path,
      "0" for a left step and "1" for a right step; a later (more rightward)
      write of the same symbol wins. */
  function CodeMap(t: Tree, prefix: string): (m: map<string, string>)
    requires Shaped(t)
    ensures forall s :: s in m ==> prefix <= m[s]
  {
    if t.Symbol() != "" then map[t.Symbol() := prefix]
    else CodeMap(t.left, prefix + "0") + CodeMap(t.right, prefix + "1")
  }

  /** Decoding one codeword: follow the path from t; the symbol of the leaf
      the path ends on, if it ends exactly on one. */
  function LeafAt(t: Tree, path: string): Option<string>
  {
    if t.Leaf? then (if path == [] then Some(t.sym) else None)
    else if path == [] then None
    else if path[0] == '0' then LeafAt(t.left, path[1..])
    else if path[0] == '1' then LeafAt(t.right, path[1..])
    else None
  }

  /** No codeword is a prefix of another symbol's codeword. */
  ghost predicate PrefixFree(enc: map<string, string>)
  {
    forall x, y :: x in enc && y in enc && x != y ==> !(enc[x] <= enc[y])
  }

  lemma {:induction false} TotalConcat(a: seq<(string, int)>, b: seq<(string, int)>)
    ensures Total(a + b) == Total(a) + Total(b)
    decreases |b|
  {
    if b != [] {
      assert (a + b)[..|a + b| - 1] == a + b[..|b| - 1];
      TotalConcat(a, b[..|b| - 1]);
    } else {
      assert a + b == a;
    }
  }

  /** A tree with summed counts has the total count of its leaves. */
  lemma {:induction false} FreqIsLeafTotal(t: Tree)
    requires Summed(t)
    ensures t.freq == Total(LeafPairs(t))
  {
    match t
    case Leaf(s, f) =>
      assert [(s, f)][..0] == [];
    case Node(_, l, r) =>
      FreqIsLeafTotal(l);
      FreqIsLeafTotal(r);
      TotalConcat(LeafPairs(l), LeafPairs(r));
  }

  /** The traversal gives a codeword to exactly the symbols at the leaves. */
  lemma {:induction false} CodeMapKeys(t: Tree, prefix: string)
    requires Shaped(t)
    ensures CodeMap(t, prefix).Keys == SymbolsOf(LeafPairs(t))
  {
    match t
    case Leaf(s, f) =>
      assert LeafPairs(t) == [(s, f)];
    case Node(_, l, r) =>
      CodeMapKeys(l, prefix + "0");
      CodeMapKeys(r, prefix + "1");
      assert SymbolsOf(LeafPairs(t)) == SymbolsOf(LeafPairs(l)) + SymbolsOf(LeafPairs(r));
  }

  /** Every codeword starts with the prefix, and the rest of it is the path
      from t to a leaf holding that symbol. */
  lemma {:induction false} CodeMapPaths(t: Tree, prefix: string, s: string)
    requires Shaped(t) && s in CodeMap(t, prefix)
    ensures prefix <= CodeMap(t, prefix)[s]
    ensures LeafAt(t, CodeMap(t, prefix)[s][|prefix|..]) == Some(s)
  {
    if t.Node? {
      var code := CodeMap(t, prefix)[s];
      CodeMapNode(t, prefix);
      if s in CodeMap(t.right, prefix + "1") {
        CodeMapPaths(t.right, prefix + "1", s);
        PrefixStep(prefix, '1', code);
      } else {
        CodeMapPaths(t.left, prefix + "0", s);
        PrefixStep(prefix, '0', code);
      }
    }
  }

  /** A codeword that extends the prefix by one step continues from there
      with the rest of its path. */
  lemma PrefixStep(prefix: string, c: char, code: string)
    requires prefix + [c] <= code
    ensures |code| > |prefix| && code[|prefix|..][0] == c
    ensures code[|prefix|..][1..] == code[|prefix| + 1..]
  {
    assert code[|prefix|] == (prefix + [c])[|prefix|];
  }

  /** A path that ends on a leaf cannot be extended to another leaf. */
  lemma {:induction false} LeafAtNoExtension(t: Tree, a: string, b: string)
    requires LeafAt(t, a).Some? && LeafAt(t, a + b).Some?
    ensures b == []
    decreases |a|
  {
    if a != [] {
      assert (a + b)[0] == a[0] && (a + b)[1..] == a[1..] + b;
      if a[0] == '0' {
        LeafAtNoExtension(t.left, a[1..], b);
      } else {
        LeafAtNoExtension(t.right, a[1..], b);
      }
    } else {
      assert a + b == b;
    }
  }

  /** Two codewords of which one is a prefix of the other belong to the
      same symbol. */
  lemma PrefixCodesEqual(t: Tree, prefix: string, x: string, y: string)
    requires Shaped(t) && x in CodeMap(t, prefix) && y in CodeMap(t, prefix)
    requires CodeMap(t, prefix)[x] <= CodeMap(t, prefix)[y]
    ensures x == y
  {
    var enc := CodeMap(t, prefix);
    CodeMapPaths(t, prefix, x);
    CodeMapPaths(t, prefix, y);
    var cx := enc[x][|prefix|..];
    var cy := enc[y][|prefix|..];
    var rest := enc[y][|enc[x]|..];
    assert cy == cx + rest;
    LeafAtNoExtension(t, cx, rest);
    assert cy == cx;
  }

  /** The codewords the traversal assigns are prefix-free. */
  lemma CodeMapPrefixFree(t: Tree, prefix: string)
    requires Shaped(t)
    ensures PrefixFree(CodeMap(t, prefix))
  {
    var enc := CodeMap(t, prefix);
    forall x, y | x in enc && y in enc && x != y
      ensures !(enc[x] <= enc[y])
    {
      if enc[x] <= enc[y] {
        PrefixCodesEqual(t, prefix, x, y);
      }
    }
  }

  lemma {:induction false} LeafAtIsLeafSymbol(t: Tree, path: string)
    requires LeafAt(t, path).Some?
    ensures LeafAt(t, path).value in SymbolsOf(LeafPairs(t))
    decreases |path|
  {
    if t.Node? {
      if path[0] == '0' {
        LeafAtIsLeafSymbol(t.left, path[1..]);
      } else {
        LeafAtIsLeafSymbol(t.right, path[1..]);
      }
      assert SymbolsOf(LeafPairs(t)) == SymbolsOf(LeafPairs(t.left)) + SymbolsOf(LeafPairs(t.right));
    } else {
      assert LeafPairs(t) == [(t.sym, t.freq)];
    }
  }

  lemma UniqueSplit(a: seq<(string, int)>, b: seq<(string, int)>)
    requires UniqueSymbols(a + b)
    ensures UniqueSymbols(a) && UniqueSymbols(b)
    ensures SymbolsOf(a) !! SymbolsOf(b)
  {
    assert forall i :: 0 <= i < |a| ==> (a + b)[i] == a[i];
    assert forall i :: 0 <= i < |b| ==> (a + b)[|a| + i] == b[i];
    forall i, j | 0 <= i < |a| && 0 <= j < |b|
      ensures a[i].0 != b[j].0
    {
      assert (a + b)[i] == a[i] && (a + b)[|a| + j] == b[j];
    }
  }

  /** When the leaves carry distinct symbols, every root-to-leaf path is the
      codeword of that leaf's symbol: the map is exactly the set of paths. */
  lemma {:induction false} CodeMapComplete(t: Tree, prefix: string, path: string)
    requires Shaped(t) && UniqueSymbols(LeafPairs(t)) && LeafAt(t, path).Some?
    ensures LeafAt(t, path).value in CodeMap(t, prefix)
    ensures CodeMap(t, prefix)[LeafAt(t, path).value] == prefix + path
    decreases |path|, 1
  {
    if t.Node? {
      if path[0] == '0' {
        CodeMapCompleteLeft(t, prefix, path);
      } else {
        CodeMapCompleteRight(t, prefix, path);
      }
    } else {
      assert path == [];
      assert prefix + path == prefix;
    }
  }

  /** A path that starts with a left step: its leaf's symbol is written on
      the left and, symbols being distinct, not overwritten on the right. */
  lemma {:induction false} CodeMapCompleteLeft(t: Tree, prefix: string, path: string)
    requires Shaped(t) && UniqueSymbols(LeafPairs(t)) && LeafAt(t, path).Some?
    requires t.Node? && path[0] == '0'
    ensures LeafAt(t, path).value in CodeMap(t, prefix)
    ensures CodeMap(t, prefix)[LeafAt(t, path).value] == prefix + path
    decreases |path|, 0
  {
    var s := LeafAt(t.left, path[1..]).value;
    assert LeafAt(t, path).value == s;
    UniqueSplit(LeafPairs(t.left), LeafPairs(t.right));
    CodeMapComplete(t.left, prefix + "0", path[1..]);
    LeafAtIsLeafSymbol(t.left, path[1..]);
    CodeMapKeys(t.right, prefix + "1");
    CodeMapNode(t, prefix);
    UnionLeft(CodeMap(t.left, prefix + "0"), CodeMap(t.right, prefix + "1"), s);
    StepPath(prefix, path);
  }

  /** One step of the traversal at an inner node: the right subtree's
      writes follow the left subtree's. */
  lemma CodeMapNode(t: Tree, prefix: string)
    requires Shaped(t) && t.Node?
    ensures CodeMap(t, prefix) == CodeMap(t.left, prefix + "0") + CodeMap(t.right, prefix + "1")
  {
  }

  lemma UnionLeft(l: map<string, string>, r: map<string, string>, s: string)
    requires s in l && s !in r
    ensures s in l + r && (l + r)[s] == l[s]
  {
  }

  /** A path that starts with a right step: the right subtree's write wins. */
  lemma {:induction false} CodeMapCompleteRight(t: Tree, prefix: string, path: string)
    requires Shaped(t) && UniqueSymbols(LeafPairs(t)) && LeafAt(t, path).Some?
    requires t.Node? && path[0] != '0'
    ensures LeafAt(t, path).value in CodeMap(t, prefix)
    ensures CodeMap(t, prefix)[LeafAt(t, path).value] == prefix + path
    decreases |path|, 0
  {
    UniqueSplit(LeafPairs(t.left), LeafPairs(t.right));
    CodeMapComplete(t.right, prefix + "1", path[1..]);
    StepPath(prefix, path);
  }

  /** Taking the first step of a path onto the prefix. */
  lemma StepPath(prefix: string, path: string)
    requires path != []
    ensures prefix + [path[0]] + path[1..] == prefix + path
  {
    assert path == [path[0]] + path[1..];
  }

  /** A tree with one leaf is that leaf, and the traversal gives its symbol
      the empty codeword. */
  lemma SingleLeafCode(t: Tree, s: string, f: int)
    requires Shaped(t) && LeafPairs(t) == [(s, f)]
    ensures t == Leaf(s, f)
    ensures CodeMap(t, "") == map[s := ""]
  {
  }

  lemma CountTwo(qs: seq<(string, int)>, i: int, j: int)
    requires 0 <= i < j < |qs| && qs[i] == qs[j]
    ensures multiset(qs)[qs[i]] >= 2
  {
    assert qs == qs[..j] + qs[j..];
    assert qs[i] in qs[..j] && qs[j] in qs[j..];
  }

  lemma {:induction false} UniqueCounts(ps: seq<(string, int)>)
    requires UniqueSymbols(ps)
    ensures forall e :: multiset(ps)[e] <= 1
    decreases |ps|
  {
    if ps != [] {
      var init := ps[..|ps| - 1];
      var last := ps[|ps| - 1];
      assert ps == init + [last];
      assert UniqueSymbols(init);
      UniqueCounts(init);
      assert last !in init;
    }
  }

  /** Distinct symbols survive any rearrangement of the pairs. */
  lemma UniqueTransfer(ps: seq<(string, int)>, qs: seq<(string, int)>)
    requires UniqueSymbols(ps) && multiset(ps) == multiset(qs)
    ensures UniqueSymbols(qs)
  {
    UniqueCounts(ps);
    forall i, j | 0 <= i < j < |qs|
      ensures qs[i].0 != qs[j].0
    {
      if qs[i] == qs[j] {
        CountTwo(qs, i, j);
      } else {
        assert qs[i] in multiset(ps) && qs[j] in multiset(ps);
        var a :| 0 <= a < |ps| && ps[a] == qs[i];
        var b :| 0 <= b < |ps| && ps[b] == qs[j];
      }
    }
  }
}
