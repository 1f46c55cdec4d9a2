/**
 * The forest of `build_huffman_codes`: the trees held by the priority
 * queue while the Huffman tree is built, listed in some order. Replacing
 * the two lightest trees by their merge keeps the leaves and the total
 * weight of the forest.
 */
module Forest {
  import opened Huffman

  /** The leaf values of the trees of `forest`, tree by tree. */
  function ForestSymbols(forest: seq<HuffNode>): seq<int> {
    if forest == [] then []
    else ForestSymbols(forest[..|forest| - 1]) + LeafSymbols(forest[|forest| - 1])
  }

  /** The sum of the root frequencies of the trees of `forest`. */
  function ForestWeight(forest: seq<HuffNode>): nat {
    if forest == [] then 0
    else ForestWeight(forest[..|forest| - 1]) + forest[|forest| - 1].frequency
  }

  /** The leaves and the weight of two forests side by side are those of each. */
  lemma {:induction false} ForestConcat(a: seq<HuffNode>, b: seq<HuffNode>)
    ensures ForestSymbols(a + b) == ForestSymbols(a) + ForestSymbols(b)
    ensures ForestWeight(a + b) == ForestWeight(a) + ForestWeight(b)
    decreases |b|
  {
    if b == [] {
      assert a + b == a;
    } else {
      var b', t := b[..|b| - 1], b[|b| - 1];
      ForestConcat(a, b');
      var ab := a + b;
      assert ab[..|ab| - 1] == a + b' && ab[|ab| - 1] == t;
      assert ForestSymbols(ab) == ForestSymbols(a + b') + LeafSymbols(t);
      assert ForestSymbols(b) == ForestSymbols(b') + LeafSymbols(t);
      assert ForestWeight(ab) == ForestWeight(a + b') + t.frequency;
    }
  }

  /** A forest of one tree. */
  lemma ForestSingle(t: HuffNode)
    ensures ForestSymbols([t]) == LeafSymbols(t) && ForestWeight([t]) == t.frequency
  {
    assert [t][..0] == [];
  }

  /** Where the tree t first stands in the forest. */
  ghost function IndexOf(forest: seq<HuffNode>, t: HuffNode): (k: nat)
    requires t in forest
    ensures k < |forest| && forest[k] == t
  {
    if forest[0] == t then 0 else 1 + IndexOf(forest[1..], t)
  }

  /** The forest without its k-th tree. */
  function RemoveAt(forest: seq<HuffNode>, k: nat): (rest: seq<HuffNode>)
    requires k < |forest|
    ensures |rest| == |forest| - 1
    ensures multiset(rest) == multiset(forest) - multiset{forest[k]}
  {
    assert forest == forest[..k] + [forest[k]] + forest[k + 1..];
    forest[..k] + forest[k + 1..]
  }

  /** Taking a tree out of the forest takes out its leaves and its frequency. */
  lemma ForestRemove(forest: seq<HuffNode>, k: nat)
    requires k < |forest|
    ensures multiset(ForestSymbols(forest)) == multiset(ForestSymbols(RemoveAt(forest, k))) + multiset(LeafSymbols(forest[k]))
    ensures ForestWeight(forest) == ForestWeight(RemoveAt(forest, k)) + forest[k].frequency
  {
    SplitAt(forest, k);
    ForestSplit(forest[..k], forest[k], forest[k + 1..]);
  }

  lemma SplitAt(forest: seq<HuffNode>, k: nat)
    requires k < |forest|
    ensures forest == forest[..k] + [forest[k]] + forest[k + 1..]
    ensures RemoveAt(forest, k) == forest[..k] + forest[k + 1..]
  {
    var a, t, b := forest[..k], forest[k], forest[k + 1..];
    assert forest[k..] == [t] + b;
    assert forest == a + forest[k..];
    assert a + [t] + b == a + ([t] + b);
  }

  lemma ForestSplit(a: seq<HuffNode>, t: HuffNode, b: seq<HuffNode>)
    ensures multiset(ForestSymbols(a + [t] + b)) == multiset(ForestSymbols(a + b)) + multiset(LeafSymbols(t))
    ensures ForestWeight(a + [t] + b) == ForestWeight(a + b) + t.frequency
  {
    ForestConcat(a + [t], b);
    ForestConcat(a, [t]);
    ForestConcat(a, b);
    ForestSingle(t);
    var sa, st, sb := ForestSymbols(a), LeafSymbols(t), ForestSymbols(b);
    assert ForestSymbols(a + [t] + b) == sa + st + sb;
    assert ForestSymbols(a + b) == sa + sb;
    assert multiset(sa + st + sb) == multiset(sa + sb) + multiset(st);
  }

  /**
   * Replacing two trees of the forest, the i-th and then the j-th of what
   * is left, by their merge keeps its leaves and its weight and leaves one
   * tree fewer.
   */
  lemma ForestMerge(forest: seq<HuffNode>, i: nat, j: nat)
    requires i < |forest| && j < |forest| - 1
    ensures var rest := RemoveAt(forest, i);
      var merged := RemoveAt(rest, j) + [Merge(forest[i], rest[j])];
      multiset(ForestSymbols(merged)) == multiset(ForestSymbols(forest)) &&
      ForestWeight(merged) == ForestWeight(forest) &&
      |merged| == |forest| - 1
  {
    var rest := RemoveAt(forest, i);
    var l, r := forest[i], rest[j];
    ForestRemove(forest, i);
    ForestRemove(rest, j);
    ForestConcat(RemoveAt(rest, j), [Merge(l, r)]);
    ForestSingle(Merge(l, r));
  }
}
