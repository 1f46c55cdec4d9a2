/**
 * Huffman trees and the codes read off them (`HuffNode`, `create_huff_node`
 * and `generate_codes` in src/entropy.c).
 *
 * A node is never changed once its children are linked, so a tree is a
 * value here. A leaf carries a coefficient value and how often it occurs;
 * an internal node always has two children and the sum of their
 * frequencies. A code is the path from the root to a leaf, '0' for a step
 * to the left child and '1' for a step to the right one.
 */
module Huffman {

  datatype Option<T> = None | Some(value: T)

  datatype HuffNode =
    | Leaf(symbol: int, frequency: nat)
    | Internal(frequency: nat, left: HuffNode, right: HuffNode)

  /** `HuffCode`: a coefficient value and its code, a string of '0' and '1'. */
  datatype HuffCode = HuffCode(symbol: int, code: string)

  /** The parent `build_huffman_codes` makes of two popped nodes. */
  function Merge(left: HuffNode, right: HuffNode): (parent: HuffNode)
    ensures parent.Internal? && parent.left == left && parent.right == right
    ensures parent.frequency == left.frequency + right.frequency
  {
    Internal(left.frequency + right.frequency, left, right)
  }

  /** The leaf values of `t`, left to right. */
  function LeafSymbols(t: HuffNode): seq<int> {
    match t
    case Leaf(s, _) => [s]
    case Internal(_, l, r) => LeafSymbols(l) + LeafSymbols(r)
  }

  /**
   * The codes `generate_codes` writes for the leaves of `t`, in its order,
   * below `prefix`: one per leaf.
   */
  function Codes(t: HuffNode, prefix: string): (r: seq<HuffCode>)
    ensures |r| == |LeafSymbols(t)|
  {
    match t
    case Leaf(s, _) => [HuffCode(s, prefix)]
    case Internal(_, l, r) => Codes(l, prefix + "0") + Codes(r, prefix + "1")
  }

  /** The number of edges on the longest path from the root of `t` to a leaf. */
  function Depth(t: HuffNode): nat {
    match t
    case Leaf(_, _) => 0
    case Internal(_, l, r) => 1 + if Depth(l) >= Depth(r) then Depth(l) else Depth(r)
  }

  /** The leaf reached from the root of `t` by following `bits`, if the path ends exactly at one. */
  function Walk(t: HuffNode, bits: string): Option<int> {
    match t
    case Leaf(s, _) => if bits == [] then Some(s) else None
    case Internal(_, l, r) =>
      if bits == [] then None
      else if bits[0] == '0' then Walk(l, bits[1..])
      else if bits[0] == '1' then Walk(r, bits[1..])
      else None
  }

  /** One code per leaf, carrying that leaf's value, in left-to-right order. */
  lemma {:induction false} CodesSymbols(t: HuffNode, prefix: string)
    ensures |Codes(t, prefix)| == |LeafSymbols(t)|
    ensures forall k | 0 <= k < |Codes(t, prefix)| :: Codes(t, prefix)[k].symbol == LeafSymbols(t)[k]
  {
    match t
    case Leaf(_, _) =>
    case Internal(_, l, r) =>
      CodesSymbols(l, prefix + "0");
      CodesSymbols(r, prefix + "1");
  }

  /** Every code extends the prefix it was generated under. */
  lemma {:induction false} CodesExtendPrefix(t: HuffNode, prefix: string)
    ensures forall k | 0 <= k < |Codes(t, prefix)| :: prefix <= Codes(t, prefix)[k].code
  {
    match t
    case Leaf(_, _) =>
    case Internal(_, l, r) =>
      CodesExtendPrefix(l, prefix + "0");
      CodesExtendPrefix(r, prefix + "1");
      var cs := Codes(t, prefix);
      forall k | 0 <= k < |cs|
        ensures prefix <= cs[k].code
      {
        var n := |Codes(l, prefix + "0")|;
        if k < n {
          assert cs[k] == Codes(l, prefix + "0")[k];
        } else {
          assert cs[k] == Codes(r, prefix + "1")[k - n];
        }
      }
  }

  /**
   * No code is longer than its prefix plus the depth of the tree, so the
   * longest code `generate_codes` writes has `Depth(root)` bits.
   */
  lemma {:induction false} CodesDepth(t: HuffNode, prefix: string)
    ensures forall k | 0 <= k < |Codes(t, prefix)| :: |Codes(t, prefix)[k].code| <= |prefix| + Depth(t)
  {
    match t
    case Leaf(_, _) =>
    case Internal(_, l, r) =>
      CodesDepth(l, prefix + "0");
      CodesDepth(r, prefix + "1");
      var cs := Codes(t, prefix);
      forall k | 0 <= k < |cs|
        ensures |cs[k].code| <= |prefix| + Depth(t)
      {
        var n := |Codes(l, prefix + "0")|;
        if k < n {
          assert cs[k] == Codes(l, prefix + "0")[k];
        } else {
          assert cs[k] == Codes(r, prefix + "1")[k - n];
        }
      }
  }

  /** Following the part of a code after its prefix leads from the root to that code's leaf. */
  lemma {:induction false} CodesWalk(t: HuffNode, prefix: string)
    ensures forall k | 0 <= k < |Codes(t, prefix)| ::
      prefix <= Codes(t, prefix)[k].code &&
      Walk(t, Codes(t, prefix)[k].code[|prefix|..]) == Some(Codes(t, prefix)[k].symbol)
  {
    CodesExtendPrefix(t, prefix);
    match t
    case Leaf(_, _) =>
      assert Codes(t, prefix)[0].code[|prefix|..] == [];
    case Internal(_, l, r) =>
      CodesWalk(l, prefix + "0");
      CodesWalk(r, prefix + "1");
      var cs := Codes(t, prefix);
      var n := |Codes(l, prefix + "0")|;
      forall k | 0 <= k < |cs|
        ensures Walk(t, cs[k].code[|prefix|..]) == Some(cs[k].symbol)
      {
        var c := cs[k].code;
        if k < n {
          assert cs[k] == Codes(l, prefix + "0")[k];
          assert (prefix + "0") <= c;
          assert c[|prefix|] == '0';
          assert c[|prefix|..][1..] == c[|prefix + "0"|..];
        } else {
          assert cs[k] == Codes(r, prefix + "1")[k - n];
          assert (prefix + "1") <= c;
          assert c[|prefix|] == '1';
          assert c[|prefix|..][1..] == c[|prefix + "1"|..];
        }
      }
  }

  /** The code of each leaf leads from the root to that leaf; so its length is the leaf's depth. */
  lemma CodesDecodeToTheirLeaf(t: HuffNode)
    ensures |Codes(t, "")| == |LeafSymbols(t)|
    ensures forall k | 0 <= k < |Codes(t, "")| :: Walk(t, Codes(t, "")[k].code) == Some(LeafSymbols(t)[k])
  {
    CodesWalk(t, "");
    CodesSymbols(t, "");
    forall k | 0 <= k < |Codes(t, "")|
      ensures Walk(t, Codes(t, "")[k].code) == Some(LeafSymbols(t)[k])
    {
      assert Codes(t, "")[k].code[0..] == Codes(t, "")[k].code;
    }
  }

  /** `a` is a proper or improper prefix of `b`. */
  predicate IsPrefix(a: string, b: string) {
    a <= b
  }

  /** No code is a prefix of another code of the same tree. */
  lemma {:induction false} CodesPrefixFree(t: HuffNode, prefix: string)
    ensures forall a, b | 0 <= a < |Codes(t, prefix)| && 0 <= b < |Codes(t, prefix)| && a != b ::
      !IsPrefix(Codes(t, prefix)[a].code, Codes(t, prefix)[b].code)
  {
    match t
    case Leaf(_, _) =>
    case Internal(_, l, r) =>
      var lc := Codes(l, prefix + "0");
      var rc := Codes(r, prefix + "1");
      var cs := Codes(t, prefix);
      CodesPrefixFree(l, prefix + "0");
      CodesPrefixFree(r, prefix + "1");
      CodesExtendPrefix(l, prefix + "0");
      CodesExtendPrefix(r, prefix + "1");
      forall a, b | 0 <= a < |cs| && 0 <= b < |cs| && a != b
        ensures !IsPrefix(cs[a].code, cs[b].code)
      {
        var n := |lc|;
        if a < n && b >= n {
          CrossNotPrefix(prefix, lc[a].code, rc[b - n].code, '0', '1');
        } else if a >= n && b < n {
          CrossNotPrefix(prefix, rc[a - n].code, lc[b].code, '1', '0');
        } else if a < n {
          assert cs[a] == lc[a] && cs[b] == lc[b];
        } else {
          assert cs[a] == rc[a - n] && cs[b] == rc[b - n];
        }
      }
  }

  /** Codes that branch apart after a common prefix are not prefixes of each other. */
  lemma CrossNotPrefix(prefix: string, x: string, y: string, cx: char, cy: char)
    requires cx != cy
    requires prefix + [cx] <= x && prefix + [cy] <= y
    ensures !IsPrefix(x, y)
  {
    assert x[|prefix|] == cx && y[|prefix|] == cy;
  }

  /** Every tree has a leaf, and only a single leaf has exactly one. */
  lemma {:induction false} LeafCount(t: HuffNode)
    ensures |LeafSymbols(t)| >= 1
    ensures t.Leaf? <==> |LeafSymbols(t)| == 1
  {
    if t.Internal? {
      LeafCount(t.left);
      LeafCount(t.right);
    }
  }

  /** A tree that is a single leaf gets the empty code; any other tree gets only nonempty codes. */
  lemma {:induction false} CodesOfLeafAndInternal(t: HuffNode)
    ensures t.Leaf? ==> Codes(t, "") == [HuffCode(t.symbol, "")]
    ensures t.Internal? ==> forall k | 0 <= k < |Codes(t, "")| :: |Codes(t, "")[k].code| >= 1
  {
    if t.Internal? {
      var p0, p1 := "" + "0", "" + "1";
      CodesExtendPrefix(t.left, p0);
      CodesExtendPrefix(t.right, p1);
      var n := |Codes(t.left, p0)|;
      forall k | 0 <= k < |Codes(t, "")|
        ensures |Codes(t, "")[k].code| >= 1
      {
        if k < n {
          assert Codes(t, "")[k] == Codes(t.left, p0)[k];
        } else {
          assert Codes(t, "")[k] == Codes(t.right, p1)[k - n];
        }
      }
    }
  }
}
