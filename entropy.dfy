/**
 * The entropy coding context of src/entropy.c (`EntropyContext`,
 * `entropy_init`, `run_length_encode`, `run_length_decode`,
 * `build_huffman_codes`, `get_encoded_size`).
 *
 * The context owns a growable buffer of run-length symbols (`count` of
 * them in use, room for `capacity`) and, once built, a table of Huffman
 * codes for the symbols' values. Huffman frequencies are kept per value
 * only; the runs take no part in them.
 */
module Entropy {
  import opened Matrix
  import opened Zigzag
  import opened RunLength
  import opened Huffman
  import opened Forest
  import opened MinHeap

  /** `INITIAL_CAPACITY`: room for this many symbols in a new context. */
  const InitialCapacity: nat := 64

  // ---------------------------------------------------------------------
  // Specification of the Huffman table

  function Abs(x: int): nat {
    if x < 0 then -x else x
  }

  /** The values of the symbols `s`, in order. */
  function Values(s: seq<RleSymbol>): (v: seq<int>)
    ensures |v| == |s| && forall k | 0 <= k < |s| :: v[k] == s[k].value
  {
    seq(|s|, k requires 0 <= k < |s| => s[k].value)
  }

  /** The distinct values among the symbols `s`. */
  ghost function ValueSet(s: seq<RleSymbol>): set<int> {
    set k | 0 <= k < |s| :: s[k].value
  }

  /** The largest magnitude among the values `v` (0 for none). */
  function MaxAbs(v: seq<int>): nat {
    if v == [] then 0
    else
      var m := MaxAbs(v[..|v| - 1]);
      if Abs(v[|v| - 1]) > m then Abs(v[|v| - 1]) else m
  }

  /** MaxAbs bounds every magnitude and is one of them. */
  lemma {:induction false} MaxAbsIsMax(v: seq<int>)
    ensures forall k | 0 <= k < |v| :: Abs(v[k]) <= MaxAbs(v)
    ensures v == [] ==> MaxAbs(v) == 0
    ensures v != [] ==> exists k | 0 <= k < |v| :: Abs(v[k]) == MaxAbs(v)
  {
    if v != [] {
      var w := v[..|v| - 1];
      MaxAbsIsMax(w);
      assert forall k | 0 <= k < |w| :: w[k] == v[k];
      if Abs(v[|v| - 1]) < MaxAbs(v) {
        var k :| 0 <= k < |w| && Abs(w[k]) == MaxAbs(w);
        assert Abs(v[k]) == MaxAbs(v);
      } else {
        assert Abs(v[|v| - 1]) == MaxAbs(v);
      }
    }
  }

  function Sum(f: seq<nat>): nat {
    if f == [] then 0 else Sum(f[..|f| - 1]) + f[|f| - 1]
  }

  /** Adding one to an entry adds one to the sum. */
  lemma {:induction false} SumIncrement(f: seq<nat>, k: nat)
    requires k < |f|
    ensures Sum(f[k := f[k] + 1]) == Sum(f) + 1
  {
    var g := f[k := f[k] + 1];
    if k < |f| - 1 {
      SumIncrement(f[..|f| - 1], k);
      assert g[..|g| - 1] == f[..|f| - 1][k := f[k] + 1];
    } else {
      assert g[..|g| - 1] == f[..|f| - 1];
    }
  }

  lemma {:induction false} SumZero(n: nat)
    ensures Sum(seq(n, _ => 0)) == 0
  {
    if n > 0 {
      SumZero(n - 1);
      assert seq(n, _ => 0)[..n - 1] == seq(n - 1, _ => 0);
    }
  }

  /** Slot k of the table f holds the number of times k - off occurs in v. */
  ghost predicate Counts(f: seq<nat>, v: seq<int>, off: int) {
    forall k | 0 <= k < |f| :: f[k] == multiset(v)[k - off]
  }

  /** Counting one more value x in its slot keeps the table a count, one larger in sum. */
  lemma CountStep(f: seq<nat>, v: seq<int>, x: int, off: int)
    requires Counts(f, v, off) && 0 <= x + off < |f|
    ensures Counts(f[x + off := f[x + off] + 1], v + [x], off)
    ensures Sum(f[x + off := f[x + off] + 1]) == Sum(f) + 1
  {
    SumIncrement(f, x + off);
    assert multiset(v + [x]) == multiset(v) + multiset{x};
  }

  /** Counting the value of symbol i of `s` extends a count of the first i values to the first i + 1. */
  lemma CountNext(f: seq<nat>, s: seq<RleSymbol>, i: nat, maxSymbol: nat)
    requires i < |s| && |f| == 2 * maxSymbol + 2 && Abs(s[i].value) <= maxSymbol
    requires Counts(f, Values(s[..i]), maxSymbol + 1) && Sum(f) == i
    ensures var slot := Slot(maxSymbol, s[i].value);
      Counts(f[slot := f[slot] + 1], Values(s[..i + 1]), maxSymbol + 1) && Sum(f[slot := f[slot] + 1]) == i + 1
  {
    ValuesStep(s, i);
    CountStep(f, Values(s[..i]), s[i].value, maxSymbol + 1);
  }

  lemma ValuesStep(s: seq<RleSymbol>, i: nat)
    requires i < |s|
    ensures Values(s[..i + 1]) == Values(s[..i]) + [s[i].value]
  {
  }

  /** Add one to slot `slot` of `freq`. */
  method Tally(freq: array<nat>, slot: nat)
    requires slot < freq.Length
    modifies freq
    ensures freq[..] == old(freq[..])[slot := old(freq[slot]) + 1]
  {
    freq[slot] := freq[slot] + 1;
  }

  /** The values k - off of the slots k with a nonzero count, in slot order. */
  function Present(f: seq<nat>, off: int): seq<int> {
    if f == [] then []
    else Present(f[..|f| - 1], off) + (if f[|f| - 1] > 0 then [|f| - 1 - off] else [])
  }

  /** Extending a table by one slot. */
  lemma PrefixStep(f: seq<nat>, x: nat, off: int)
    ensures Present(f + [x], off) == Present(f, off) + (if x > 0 then [|f| - off] else [])
    ensures Sum(f + [x]) == Sum(f) + x
  {
    assert (f + [x])[..|f|] == f;
  }

  /** Each value of a slot with a nonzero count is present exactly once, and no other value is. */
  lemma {:induction false} PresentCount(f: seq<nat>, off: int)
    ensures forall x :: multiset(Present(f, off))[x] == if 0 <= x + off < |f| && f[x + off] > 0 then 1 else 0
  {
    if f != [] {
      var g := f[..|f| - 1];
      PresentCount(g, off);
      var last: seq<int> := if f[|f| - 1] > 0 then [|f| - 1 - off] else [];
      assert Present(f, off) == Present(g, off) + last;
      var m := multiset(Present(f, off));
      assert m == multiset(Present(g, off)) + multiset(last);
      forall x
        ensures m[x] == if 0 <= x + off < |f| && f[x + off] > 0 then 1 else 0
      {
        assert multiset(last)[x] == if x + off == |f| - 1 && f[|f| - 1] > 0 then 1 else 0;
        if 0 <= x + off < |g| {
          assert f[x + off] == g[x + off];
        }
      }
    }
  }

  /** The bits `get_encoded_size` charges for value `v`: the length of its first code, or 8 without one. */
  function ValueBits(codes: seq<HuffCode>, v: int): nat {
    if codes == [] then 8
    else if codes[0].symbol == v then |codes[0].code|
    else ValueBits(codes[1..], v)
  }

  /** The size `get_encoded_size` reports with a Huffman table: each symbol's value bits plus 8 for its run. */
  function HuffmanBits(s: seq<RleSymbol>, codes: seq<HuffCode>): nat {
    if s == [] then 0 else HuffmanBits(s[..|s| - 1], codes) + ValueBits(codes, s[|s| - 1].value) + 8
  }

  /** A value with a code is charged that code's length. */
  lemma {:induction false} ValueBitsOfCode(codes: seq<HuffCode>, k: nat)
    requires k < |codes|
    requires forall j | 0 <= j < |codes| && j != k :: codes[j].symbol != codes[k].symbol
    ensures ValueBits(codes, codes[k].symbol) == |codes[k].code|
  {
    if k > 0 {
      ValueBitsOfCode(codes[1..], k - 1);
    }
  }

  /** Every symbol is charged at least the 8 bits of its run. */
  lemma {:induction false} HuffmanBitsAtLeastRuns(s: seq<RleSymbol>, codes: seq<HuffCode>)
    ensures HuffmanBits(s, codes) >= 8 * |s|
  {
    if s != [] {
      HuffmanBitsAtLeastRuns(s[..|s| - 1], codes);
    }
  }

  /** With one value, whose code is empty, every symbol costs just its run's 8 bits. */
  lemma {:induction false} HuffmanBitsSingleValue(s: seq<RleSymbol>, v: int)
    requires forall k | 0 <= k < |s| :: s[k].value == v
    ensures HuffmanBits(s, [HuffCode(v, "")]) == 8 * |s|
  {
    if s != [] {
      HuffmanBitsSingleValue(s[..|s| - 1], v);
    }
  }

  /** When every code has at least one bit, every value is charged at least one bit. */
  lemma {:induction false} ValueBitsPositive(codes: seq<HuffCode>, v: int)
    requires forall k | 0 <= k < |codes| :: |codes[k].code| >= 1
    ensures ValueBits(codes, v) >= 1
  {
    if codes != [] && codes[0].symbol != v {
      ValueBitsPositive(codes[1..], v);
    }
  }

  /** When every code has at least one bit, every symbol costs at least 9 bits. */
  lemma {:induction false} HuffmanBitsSeveralValues(s: seq<RleSymbol>, codes: seq<HuffCode>)
    requires forall k | 0 <= k < |codes| :: |codes[k].code| >= 1
    ensures HuffmanBits(s, codes) >= 9 * |s|
  {
    if s != [] {
      HuffmanBitsSeveralValues(s[..|s| - 1], codes);
      ValueBitsPositive(codes, s[|s| - 1].value);
    }
  }

  /**
   * A tree whose leaves are the distinct values of `s`, each once, is a
   * single leaf exactly when `s` has one distinct value. Its table is then
   * that value with the empty code, and `s` costs 8 bits per symbol.
   * With two or more distinct values every code has at least one bit, and
   * `s` costs at least 9 bits per symbol.
   */
  lemma TreeOfValues(s: seq<RleSymbol>, t: HuffNode)
    requires multiset(LeafSymbols(t)) == multiset(ValueSet(s))
    ensures t.Leaf? <==> |ValueSet(s)| == 1
    ensures t.Leaf? ==>
      ValueSet(s) == {t.symbol} && Codes(t, "") == [HuffCode(t.symbol, "")] &&
      HuffmanBits(s, Codes(t, "")) == 8 * |s|
    ensures t.Internal? ==>
      (forall k | 0 <= k < |Codes(t, "")| :: |Codes(t, "")[k].code| >= 1) &&
      HuffmanBits(s, Codes(t, "")) >= 9 * |s|
  {
    LeafCount(t);
    assert |multiset(LeafSymbols(t))| == |LeafSymbols(t)|;
    assert |multiset(ValueSet(s))| == |ValueSet(s)|;
    CodesOfLeafAndInternal(t);
    if t.Leaf? {
      assert t.symbol in multiset(LeafSymbols(t));
      assert t.symbol in ValueSet(s);
      assert |ValueSet(s) - {t.symbol}| == 0;
      assert ValueSet(s) == {t.symbol};
      forall k | 0 <= k < |s|
        ensures s[k].value == t.symbol
      {
        assert s[k].value in ValueSet(s);
      }
      HuffmanBitsSingleValue(s, t.symbol);
    } else {
      HuffmanBitsSeveralValues(s, Codes(t, ""));
    }
  }

  // ---------------------------------------------------------------------
  // Steps of `build_huffman_codes` that work on local tables

  /** The frequency slot of value v when magnitudes are at most maxSymbol. */
  function Slot(maxSymbol: nat, v: int): int {
    maxSymbol + 1 + v
  }

  /**
   * Queue a leaf for every slot with a nonzero count, in slot order; the
   * leaf's value is the slot less maxSymbol + 1. `forest` lists the queued
   * trees in the order they were pushed.
   */
  method PushLeaves(freq: array<nat>, maxSymbol: nat) returns (pq: PriorityQueue, ghost forest: seq<HuffNode>)
    ensures fresh(pq) && fresh(pq.nodes) && pq.Valid() && pq.capacity == freq.Length
    ensures pq.size == |forest| && pq.Contents() == multiset(forest)
    ensures ForestSymbols(forest) == Present(freq[..], maxSymbol + 1)
    ensures ForestWeight(forest) == Sum(freq[..])
  {
    pq := new PriorityQueue(freq.Length);
    forest := [];
    for i := 0 to freq.Length
      invariant fresh(pq) && fresh(pq.nodes) && pq.Valid() && pq.capacity == freq.Length
      invariant pq.size == |forest| <= i && pq.Contents() == multiset(forest)
      invariant ForestSymbols(forest) == Present(freq[..i], maxSymbol + 1)
      invariant ForestWeight(forest) == Sum(freq[..i])
    {
      forest := QueueSlot(pq, forest, freq, i, maxSymbol + 1);
    }
    assert freq[..freq.Length] == freq[..];
  }

  /** One step of `PushLeaves`: queue the leaf of slot i if its count is nonzero. */
  method QueueSlot(pq: PriorityQueue, ghost forest: seq<HuffNode>, freq: array<nat>, i: nat, off: int) returns (ghost next: seq<HuffNode>)
    requires pq.Valid() && pq.capacity == freq.Length && pq.size == |forest| <= i < freq.Length
    requires pq.Contents() == multiset(forest)
    requires ForestSymbols(forest) == Present(freq[..i], off) && ForestWeight(forest) == Sum(freq[..i])
    modifies pq, pq.nodes
    ensures pq.Valid() && pq.nodes == old(pq.nodes) && pq.capacity == old(pq.capacity)
    ensures pq.size == |next| <= i + 1 && pq.Contents() == multiset(next)
    ensures ForestSymbols(next) == Present(freq[..i + 1], off) && ForestWeight(next) == Sum(freq[..i + 1])
  {
    LeafStep(forest, freq[..], i, off);
    assert freq[..][..i] == freq[..i] && freq[..][..i + 1] == freq[..i + 1];
    next := forest;
    if freq[i] > 0 {
      var leaf := Leaf(i - off, freq[i]);
      pq.Push(leaf);
      next := forest + [leaf];
    }
  }

  /** Queueing the leaf of slot i, if its count is nonzero, extends the forest's leaves and weight to slot i + 1. */
  lemma LeafStep(forest: seq<HuffNode>, fs: seq<nat>, i: nat, off: int)
    requires i < |fs|
    requires ForestSymbols(forest) == Present(fs[..i], off) && ForestWeight(forest) == Sum(fs[..i])
    ensures var next := if fs[i] > 0 then forest + [Leaf(i - off, fs[i])] else forest;
      ForestSymbols(next) == Present(fs[..i + 1], off) && ForestWeight(next) == Sum(fs[..i + 1])
  {
    assert fs[..i + 1] == fs[..i] + [fs[i]];
    PrefixStep(fs[..i], fs[i], off);
    var leaf := Leaf(i - off, fs[i]);
    ForestConcat(forest, [leaf]);
    ForestSingle(leaf);
  }

  /**
   * While two or more trees are queued, replace the two lightest by their
   * merge. `forest` lists the queued trees before, `merged` after.
   */
  method MergeForest(pq: PriorityQueue, ghost forest: seq<HuffNode>) returns (ghost merged: seq<HuffNode>)
    requires pq.Valid() && pq.size == |forest| && pq.Contents() == multiset(forest)
    modifies pq, pq.nodes
    ensures pq.Valid() && pq.nodes == old(pq.nodes) && pq.capacity == old(pq.capacity)
    ensures pq.size == |merged| == if forest == [] then 0 else 1
    ensures pq.Contents() == multiset(merged)
    ensures multiset(ForestSymbols(merged)) == multiset(ForestSymbols(forest))
    ensures ForestWeight(merged) == ForestWeight(forest)
  {
    merged := forest;
    while pq.size > 1
      invariant pq.Valid() && pq.nodes == old(pq.nodes) && pq.capacity == old(pq.capacity)
      invariant pq.size == |merged| && pq.Contents() == multiset(merged)
      invariant forest == [] ==> merged == []
      invariant forest != [] ==> merged != []
      invariant multiset(ForestSymbols(merged)) == multiset(ForestSymbols(forest))
      invariant ForestWeight(merged) == ForestWeight(forest)
      decreases pq.size
    {
      merged := MergeLightest(pq, merged);
    }
  }

  /** One pass of the merge loop: pop the two lightest trees and push their merge. */
  method MergeLightest(pq: PriorityQueue, ghost forest: seq<HuffNode>) returns (ghost merged: seq<HuffNode>)
    requires pq.Valid() && pq.size == |forest| > 1 && pq.Contents() == multiset(forest)
    modifies pq, pq.nodes
    ensures pq.Valid() && pq.nodes == old(pq.nodes) && pq.capacity == old(pq.capacity)
    ensures pq.size == |merged| == |forest| - 1 && pq.Contents() == multiset(merged)
    ensures multiset(ForestSymbols(merged)) == multiset(ForestSymbols(forest))
    ensures ForestWeight(merged) == ForestWeight(forest)
  {
    var left := pq.Pop();
    assert left.value in multiset(forest);
    ghost var i := IndexOf(forest, left.value);
    ghost var rest := RemoveAt(forest, i);
    var right := pq.Pop();
    assert right.value in multiset(rest);
    ghost var j := IndexOf(rest, right.value);
    var parent := Merge(left.value, right.value);
    ForestMerge(forest, i, j);
    pq.Push(parent);
    merged := RemoveAt(rest, j) + [parent];
  }

  /** `generate_codes`: the codes of the leaves of `root` below `prefix`, stored from `index` on. */
  method GenerateCodes(root: HuffNode, prefix: string, depth: nat, codes: array<HuffCode>, index: nat) returns (next: nat)
    requires depth == |prefix|
    requires index + |LeafSymbols(root)| <= codes.Length
    modifies codes
    ensures next == index + |LeafSymbols(root)|
    ensures codes[index..next] == Codes(root, prefix)
    ensures codes[..index] == old(codes[..index]) && codes[next..] == old(codes[next..])
    decreases root
  {
    match root
    case Leaf(s, _) =>
      codes[index] := HuffCode(s, prefix);
      next := index + 1;
    case Internal(_, l, r) =>
      var mid := GenerateCodes(l, prefix + "0", depth + 1, codes, index);
      next := GenerateCodes(r, prefix + "1", depth + 1, codes, mid);
      SliceSplit(codes[..], index, mid, next);
      assert Codes(root, prefix) == Codes(l, prefix + "0") + Codes(r, prefix + "1");
  }

  /** A slice is its two parts either side of a middle index. */
  lemma SliceSplit(s: seq<HuffCode>, lo: nat, mid: nat, hi: nat)
    requires lo <= mid <= hi <= |s|
    ensures s[lo..hi] == s[lo..mid] + s[mid..hi]
  {
  }

  /**
   * The tree-building part of `build_huffman_codes`: queue a leaf per
   * nonzero slot, merge the two lightest trees while two or more are
   * queued, and take the last one out.
   */
  method BuildTree(freq: array<nat>, maxSymbol: nat) returns (root: HuffNode)
    requires Sum(freq[..]) > 0
    ensures multiset(LeafSymbols(root)) == multiset(Present(freq[..], maxSymbol + 1))
    ensures root.frequency == Sum(freq[..])
  {
    var pq, forest := PushLeaves(freq, maxSymbol);
    WeightedForest(forest);
    ghost var merged := MergeForest(pq, forest);
    var last := pq.Pop();
    root := last.value;
    LastTree(merged, root);
  }

  /** A forest of one tree has that tree's leaves and weight. */
  lemma LastTree(forest: seq<HuffNode>, t: HuffNode)
    requires |forest| == 1 && t in multiset(forest)
    ensures ForestSymbols(forest) == LeafSymbols(t) && ForestWeight(forest) == t.frequency
  {
    assert forest == [t];
    ForestSingle(t);
  }

  /** The code table of `build_huffman_codes`: room for one code per leaf, filled by `generate_codes`. */
  method CodeTable(root: HuffNode, n: nat) returns (codes: array<HuffCode>)
    requires n == |LeafSymbols(root)|
    ensures fresh(codes) && codes.Length == n && codes[..] == Codes(root, "")
  {
    codes := new HuffCode[n](_ => HuffCode(0, ""));
    var next := GenerateCodes(root, "", 0, codes, 0);
    assert codes[..] == codes[0..next];
  }

  /** The tree built from a count table and the code table read off it. */
  method TreeAndCodes(freq: array<nat>, maxSymbol: nat) returns (root: HuffNode, codes: array<HuffCode>)
    requires Sum(freq[..]) > 0
    ensures fresh(codes) && codes[..] == Codes(root, "")
    ensures multiset(LeafSymbols(root)) == multiset(Present(freq[..], maxSymbol + 1))
    ensures codes.Length == |LeafSymbols(root)|
    ensures root.frequency == Sum(freq[..])
  {
    root := BuildTree(freq, maxSymbol);
    var n := CountPresent(freq, maxSymbol + 1);
    assert |multiset(Present(freq[..], maxSymbol + 1))| == n;
    codes := CodeTable(root, n);
  }

  lemma PresentSize(present: seq<int>, leaves: seq<int>, values: set<int>)
    requires multiset(leaves) == multiset(present) == multiset(values)
    ensures |present| == |leaves| == |values|
  {
    assert |multiset(present)| == |present|;
    assert |multiset(leaves)| == |leaves|;
  }

  /** Count the slots with a nonzero count. */
  method CountPresent(freq: array<nat>, off: int) returns (n: nat)
    ensures n == |Present(freq[..], off)|
  {
    n := 0;
    for i := 0 to freq.Length
      invariant n == |Present(freq[..i], off)|
    {
      assert freq[..i + 1] == freq[..i] + [freq[i]];
      PrefixStep(freq[..i], freq[i], off);
      if freq[i] > 0 {
        n := n + 1;
      }
    }
    assert freq[..freq.Length] == freq[..];
  }

  /**
   * A table that counts each value v of `s` in slot v + maxSymbol + 1 has
   * a nonzero count exactly for the values of `s`, each once.
   */
  lemma TableValues(s: seq<RleSymbol>, f: seq<nat>, maxSymbol: nat)
    requires |f| == 2 * maxSymbol + 2
    requires forall k | 0 <= k < |s| :: Abs(s[k].value) <= maxSymbol
    requires forall k | 0 <= k < |f| :: f[k] == multiset(Values(s))[k - (maxSymbol + 1)]
    ensures multiset(Present(f, maxSymbol + 1)) == multiset(ValueSet(s))
  {
    var off := maxSymbol + 1;
    PresentCount(f, off);
    forall v
      ensures multiset(Present(f, off))[v] == multiset(ValueSet(s))[v]
    {
      if v in ValueSet(s) {
        var k :| 0 <= k < |s| && s[k].value == v;
        assert Values(s)[k] == v;
      } else {
        assert v !in Values(s);
      }
    }
  }

  /** A forest of positive weight has a tree. */
  lemma WeightedForest(forest: seq<HuffNode>)
    requires ForestWeight(forest) > 0
    ensures forest != []
  {
  }

  /**
   * Encoding a block and decoding its symbols gives the block back: what
   * `run_length_encode` leaves in the context, `run_length_decode` turns
   * into the block it was made from.
   */
  lemma BlockRoundTrip(b: seq<seq<int>>, n: nat)
    requires IsSquare(b, n)
    ensures FromZigzag(Decode(Encode(ToZigzag(b, n)), n * n), n) == b
  {
    DecodeEncode(ToZigzag(b, n));
    FromZigzagToZigzag(b, n);
  }

  // ---------------------------------------------------------------------
  // The context

  class EntropyContext {
    var useHuffman: bool
    var capacity: nat
    var count: nat
    var symbols: array<RleSymbol>
    var huffmanCodes: array?<HuffCode>
    var huffmanSize: nat
    /** The tree the current code table was read off (the source frees it once the codes are made). */
    ghost var huffmanTree: HuffNode

    ghost predicate Valid()
      reads this
    {
      0 < capacity == symbols.Length && count <= capacity &&
      (huffmanCodes != null ==> huffmanCodes.Length == huffmanSize)
    }

    /** The symbols in use. */
    ghost function Symbols(): seq<RleSymbol>
      reads this, symbols
      requires count <= symbols.Length
    {
      symbols[..count]
    }

    /** `entropy_init`: an empty symbol buffer with room for 64 symbols, and no code table. */
    constructor (useHuffman: bool)
      ensures Valid() && fresh(symbols)
      ensures this.useHuffman == useHuffman && capacity == InitialCapacity && count == 0
      ensures huffmanCodes == null && huffmanSize == 0
    {
      this.useHuffman := useHuffman;
      capacity := InitialCapacity;
      count := 0;
      symbols := new RleSymbol[InitialCapacity](_ => RleSymbol(0, 0));
      huffmanCodes := null;
      huffmanSize := 0;
      huffmanTree := Leaf(0, 0);
    }

    /** The `realloc` of a full symbol buffer to twice its room; what it held is kept. */
    method Grow()
      requires Valid()
      modifies this
      ensures Valid() && fresh(symbols)
      ensures capacity == 2 * old(capacity) && symbols[..old(capacity)] == old(symbols[..])
      ensures count == old(count) && useHuffman == old(useHuffman)
      ensures huffmanCodes == old(huffmanCodes) && huffmanSize == old(huffmanSize) && huffmanTree == old(huffmanTree)
    {
      var bigger := new RleSymbol[2 * capacity](_ => RleSymbol(0, 0));
      forall k | 0 <= k < capacity {
        bigger[k] := symbols[k];
      }
      symbols := bigger;
      capacity := 2 * capacity;
    }

    /** Store `sym` after the symbols in use, doubling the room first when the buffer is full. */
    method Append(sym: RleSymbol)
      requires Valid()
      modifies this, symbols
      ensures Valid() && Symbols() == old(Symbols()) + [sym]
      ensures capacity == old(capacity) || (old(count) == old(capacity) && capacity == 2 * old(capacity))
      ensures symbols == old(symbols) || fresh(symbols)
      ensures useHuffman == old(useHuffman) && huffmanCodes == old(huffmanCodes)
      ensures huffmanSize == old(huffmanSize) && huffmanTree == old(huffmanTree)
    {
      if count >= capacity {
        Grow();
      }
      symbols[count] := sym;
      count := count + 1;
    }

    /**
     * One step of `run_length_encode` at entry i of the scan `z`, holding x
     * (`last` when it is the final entry):
     * a nonzero or last entry is appended with the zeros before it, any
     * other entry adds one to the zeros.
     */
    method ScanEntry(ghost z: seq<int>, i: nat, x: int, last: bool, zeroCount: nat) returns (zeros: nat)
      requires Valid() && i < |z| && x == z[i] && last == (i == |z| - 1)
      modifies this, symbols
      ensures Valid() && Symbols() + EncodeFrom(z, i + 1, zeros) == old(Symbols()) + EncodeFrom(z, i, zeroCount)
      ensures zeros == 0 || i + 1 < |z|
      ensures count >= old(count) && (capacity == old(capacity) || capacity < 2 * count)
      ensures symbols == old(symbols) || fresh(symbols)
      ensures useHuffman == old(useHuffman) && huffmanCodes == old(huffmanCodes)
      ensures huffmanSize == old(huffmanSize) && huffmanTree == old(huffmanTree)
    {
      if x != 0 || last {
        var run := if last && x == 0 then zeroCount + 1 else zeroCount;
        Append(RleSymbol(run, x));
        zeros := 0;
      } else {
        zeros := zeroCount + 1;
      }
    }

    /**
     * `run_length_encode`: reset the buffer, scan the block, and append a
     * symbol for every nonzero entry and for the last entry, doubling the
     * room whenever the buffer is full. Returns the number of symbols.
     */
    method RunLengthEncode(quantCoeffs: array2<int>, blockSize: nat) returns (n: nat)
      requires Valid()
      requires quantCoeffs.Length0 == blockSize && quantCoeffs.Length1 == blockSize
      modifies this, symbols
      ensures Valid() && n == count
      ensures Symbols() == Encode(ToZigzag(Rows(quantCoeffs), blockSize))
      ensures count <= blockSize * blockSize
      ensures capacity == old(capacity) || capacity < 2 * count
      ensures symbols == old(symbols) || fresh(symbols)
      ensures useHuffman == old(useHuffman) && huffmanCodes == old(huffmanCodes)
      ensures huffmanSize == old(huffmanSize) && huffmanTree == old(huffmanTree)
    {
      count := 0;
      var size := blockSize * blockSize;
      var zigzag := new int[size];
      BlockToZigzag(quantCoeffs, zigzag, blockSize);
      ghost var z := zigzag[..];
      var zeroCount := 0;
      for i := 0 to size
        invariant Valid() && zigzag[..] == z && |z| == size
        invariant symbols == old(symbols) || fresh(symbols)
        invariant zeroCount == 0 || i < size
        invariant Symbols() + EncodeFrom(z, i, zeroCount) == Encode(z)
        invariant capacity == old(capacity) || capacity < 2 * count
        invariant useHuffman == old(useHuffman) && huffmanCodes == old(huffmanCodes)
        invariant huffmanSize == old(huffmanSize) && huffmanTree == old(huffmanTree)
      {
        zeroCount := ScanEntry(z, i, zigzag[i], i == size - 1, zeroCount);
      }
      n := count;
    }

    /**
     * `run_length_decode`: zero a scan buffer, store each symbol's value
     * after skipping its run, and unscan the buffer into the block. A store
     * is made only at a position inside the buffer.
     */
    method RunLengthDecode(quantCoeffs: array2<int>, blockSize: nat)
      requires Valid()
      requires quantCoeffs.Length0 == blockSize && quantCoeffs.Length1 == blockSize
      modifies quantCoeffs
      ensures Rows(quantCoeffs) == FromZigzag(Decode(Symbols(), blockSize * blockSize), blockSize)
    {
      var size := blockSize * blockSize;
      var zigzag := new int[size];
      for i := 0 to size
        invariant forall k | 0 <= k < i :: zigzag[k] == 0
      {
        zigzag[i] := 0;
      }
      assert zigzag[..] == seq(size, _ => 0);
      var pos := 0;
      for i := 0 to count
        invariant DecodeInto(zigzag[..], Symbols()[i..], pos) == Decode(Symbols(), size)
      {
        assert Symbols()[i..][1..] == Symbols()[i + 1..];
        pos := pos + symbols[i].run;
        if 0 <= pos < size {
          zigzag[pos] := symbols[i].value;
          pos := pos + 1;
        }
      }
      ZigzagToBlock(zigzag, quantCoeffs, blockSize);
    }

    /** The first loop of `build_huffman_codes`: the largest value magnitude. */
    method MaxSymbol() returns (maxSymbol: nat)
      requires Valid()
      ensures maxSymbol == MaxAbs(Values(Symbols()))
    {
      maxSymbol := 0;
      for i := 0 to count
        invariant maxSymbol == MaxAbs(Values(symbols[..i]))
      {
        assert Values(symbols[..i + 1])[..i] == Values(symbols[..i]);
        if Abs(symbols[i].value) > maxSymbol {
          maxSymbol := Abs(symbols[i].value);
        }
      }
    }

    /**
     * The second loop of `build_huffman_codes`: count each value in slot
     * maxSymbol + 1 + value of a zeroed table of 2·maxSymbol + 2 slots.
     */
    method Frequencies(maxSymbol: nat) returns (freq: array<nat>)
      requires Valid()
      requires forall k | 0 <= k < count :: Abs(symbols[k].value) <= maxSymbol
      ensures fresh(freq) && freq.Length == 2 * maxSymbol + 2
      ensures forall k | 0 <= k < freq.Length :: freq[k] == multiset(Values(Symbols()))[k - (maxSymbol + 1)]
      ensures Sum(freq[..]) == count
    {
      freq := new nat[2 * maxSymbol + 2](_ => 0);
      SumZero(freq.Length);
      assert freq[..] == seq(freq.Length, _ => 0);
      for i := 0 to count
        invariant Counts(freq[..], Values(symbols[..i]), maxSymbol + 1)
        invariant Sum(freq[..]) == i
      {
        CountSymbol(freq, i, maxSymbol);
      }
      assert symbols[..count] == Symbols();
    }

    /** One pass of the counting loop: count the value of symbol i in its slot. */
    method CountSymbol(freq: array<nat>, i: nat, maxSymbol: nat)
      requires Valid() && i < count && freq.Length == 2 * maxSymbol + 2
      requires Abs(symbols[i].value) <= maxSymbol
      requires Counts(freq[..], Values(symbols[..i]), maxSymbol + 1) && Sum(freq[..]) == i
      modifies freq
      ensures Counts(freq[..], Values(symbols[..i + 1]), maxSymbol + 1) && Sum(freq[..]) == i + 1
    {
      var slot := Slot(maxSymbol, symbols[i].value);
      ghost var was := freq[..];
      CountNext(was, symbols[..], i, maxSymbol);
      Tally(freq, slot);
    }

    /**
     * The first two loops of `build_huffman_codes`: a table with a slot per
     * value from -maxSymbol to maxSymbol, and one more, in which the values
     * of the symbols in use are counted.
     */
    method ValueTable() returns (freq: array<nat>, maxSymbol: nat)
      requires Valid()
      ensures fresh(freq) && freq.Length == 2 * maxSymbol + 2
      ensures multiset(Present(freq[..], maxSymbol + 1)) == multiset(ValueSet(Symbols()))
      ensures Sum(freq[..]) == count
    {
      maxSymbol := MaxSymbol();
      MaxAbsIsMax(Values(Symbols()));
      freq := Frequencies(maxSymbol);
      TableValues(Symbols(), freq[..], maxSymbol);
    }

    /**
     * The body of `build_huffman_codes` for symbols in use: the Huffman
     * tree of their values and its code table.
     */
    method HuffmanTable() returns (root: HuffNode, codes: array<HuffCode>)
      requires Valid() && count > 0
      ensures fresh(codes) && codes[..] == Codes(root, "")
      ensures multiset(LeafSymbols(root)) == multiset(ValueSet(Symbols()))
      ensures codes.Length == |ValueSet(Symbols())|
      ensures root.frequency == count
    {
      ghost var values := ValueSet(Symbols());
      var freq, maxSymbol := ValueTable();
      ghost var present := Present(freq[..], maxSymbol + 1);
      root, codes := TreeAndCodes(freq, maxSymbol);
      PresentSize(present, LeafSymbols(root), values);
    }

    /**
     * `build_huffman_codes`: with Huffman coding on and symbols in use,
     * count the values, queue a leaf per value, merge the two lightest
     * trees until one is left, and read the code table off that tree.
     * Otherwise nothing changes.
     */
    method BuildHuffmanCodes()
      requires Valid()
      modifies this
      ensures Valid()
      ensures symbols == old(symbols) && count == old(count) && capacity == old(capacity) && useHuffman == old(useHuffman)
      ensures !useHuffman || count == 0 ==>
        huffmanCodes == old(huffmanCodes) && huffmanSize == old(huffmanSize) && huffmanTree == old(huffmanTree)
      ensures useHuffman && count > 0 ==>
        huffmanCodes != null && fresh(huffmanCodes) &&
        huffmanCodes[..] == Codes(huffmanTree, "") &&
        multiset(LeafSymbols(huffmanTree)) == multiset(ValueSet(Symbols())) &&
        huffmanSize == |ValueSet(Symbols())| &&
        huffmanTree.frequency == count
      ensures useHuffman && count > 0 ==>
        (huffmanTree.Leaf? <==> |ValueSet(Symbols())| == 1) &&
        (huffmanTree.Leaf? ==>
          ValueSet(Symbols()) == {huffmanTree.symbol} && huffmanCodes[..] == [HuffCode(huffmanTree.symbol, "")]) &&
        (huffmanTree.Internal? ==> forall k | 0 <= k < huffmanSize :: |huffmanCodes[k].code| >= 1)
    {
      if !useHuffman || count == 0 {
        return;
      }
      var root, codes := HuffmanTable();
      huffmanSize := codes.Length;
      huffmanCodes := codes;
      huffmanTree := root;
      TreeOfValues(Symbols(), root);
    }

    /** The code-table search of `get_encoded_size`: the bits charged for value v. */
    method CodeLength(v: int) returns (bits: nat)
      requires Valid() && huffmanCodes != null
      ensures bits == ValueBits(huffmanCodes[..], v)
    {
      var j := 0;
      while j < huffmanSize
        invariant j <= huffmanSize
        invariant ValueBits(huffmanCodes[j..], v) == ValueBits(huffmanCodes[..], v)
      {
        assert huffmanCodes[j..][1..] == huffmanCodes[j + 1..];
        if huffmanCodes[j].symbol == v {
          return |huffmanCodes[j].code|;
        }
        j := j + 1;
      }
      return 8;
    }

    /**
     * `get_encoded_size`: with a code table, each symbol's value code plus
     * 8 bits for its run; without one, 24 bits per symbol.
     */
    method GetEncodedSize() returns (totalBits: nat)
      requires Valid()
      ensures totalBits == if useHuffman && huffmanCodes != null then HuffmanBits(Symbols(), huffmanCodes[..]) else 24 * count
    {
      if useHuffman && huffmanCodes != null {
        totalBits := 0;
        for i := 0 to count
          invariant totalBits == HuffmanBits(symbols[..i], huffmanCodes[..])
        {
          assert symbols[..i + 1][..i] == symbols[..i];
          var bits := CodeLength(symbols[i].value);
          totalBits := totalBits + bits + 8;
        }
        assert symbols[..count] == Symbols();
      } else {
        totalBits := count * (16 + 8);
      }
    }
  }
}
