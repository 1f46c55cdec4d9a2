/**
 * The binary min-heap of Huffman nodes, ordered by frequency, that
 * `build_huffman_codes` uses to pick the two lightest trees (`PriorityQueue`,
 * `pq_create`, `pq_push` and `pq_pop` in src/entropy.c).
 *
 * Slot 0 holds the root; the parent of slot k > 0 is slot (k - 1) / 2.
 */
module MinHeap {
  import opened Huffman

  /** Slot (k - 1) / 2, the parent of slot k > 0. */
  function Parent(k: nat): nat
    requires k > 0
  {
    (k - 1) / 2
  }

  /** The first `size` slots of `a` form a min-heap on frequency. */
  ghost predicate HeapOrdered(a: seq<HuffNode>, size: nat)
    requires size <= |a|
  {
    forall k | 0 < k < size :: a[Parent(k)].frequency <= a[k].frequency
  }

  /** The root of a min-heap has the least frequency of all its slots. */
  lemma {:induction false} HeapRootIsMin(a: seq<HuffNode>, size: nat, k: nat)
    requires size <= |a| && HeapOrdered(a, size) && k < size
    ensures a[0].frequency <= a[k].frequency
    decreases k
  {
    if k > 0 {
      HeapRootIsMin(a, size, Parent(k));
    }
  }

  /**
   * While `pq_push` moves a hole at slot i up, the slots other than the
   * hole keep the heap order, `node` may go into the hole as far as its
   * children are concerned, and so may the hole's parent.
   */
  ghost predicate HoleOrdered(a: seq<HuffNode>, size: nat, i: nat, node: HuffNode)
    requires size <= |a|
  {
    (forall k | 0 < k < size && k != i && Parent(k) != i :: a[Parent(k)].frequency <= a[k].frequency) &&
    (forall k | 0 < k < size && Parent(k) == i :: node.frequency <= a[k].frequency) &&
    (forall k | 0 < k < size && Parent(k) == i && i > 0 :: a[Parent(i)].frequency <= a[k].frequency)
  }

  /** Moving a parent heavier than `node` down into the hole moves the hole up. */
  lemma HoleUp(a: seq<HuffNode>, size: nat, i: nat, node: HuffNode)
    requires size <= |a| && 0 < i < size && HoleOrdered(a, size, i, node)
    requires a[Parent(i)].frequency > node.frequency
    ensures HoleOrdered(a[i := a[Parent(i)]], size, Parent(i), node)
    ensures multiset(a[i := a[Parent(i)]][..size][Parent(i) := node]) == multiset(a[..size][i := node])
  {
    var p := Parent(i);
    HoleMultiset(a, size, i, p, node);
    var b := a[i := a[p]];
    forall k | 0 < k < size && k != p && Parent(k) != p
      ensures b[Parent(k)].frequency <= b[k].frequency
    {
    }
  }

  lemma HoleMultiset(a: seq<HuffNode>, size: nat, i: nat, p: nat, node: HuffNode)
    requires size <= |a| && i < size && p < size && i != p
    ensures multiset(a[i := a[p]][..size][p := node]) == multiset(a[..size][i := node])
  {
    assert a[i := a[p]][..size][p := node] == a[..size][i := node][p := node][i := a[p]];
  }

  /** A hole that `node` may go into leaves a heap once it is filled. */
  lemma HoleFill(a: seq<HuffNode>, size: nat, i: nat, node: HuffNode)
    requires size <= |a| && i < size && HoleOrdered(a, size, i, node)
    requires i == 0 || a[Parent(i)].frequency <= node.frequency
    ensures HeapOrdered(a[i := node], size)
  {
  }

  /**
   * While `pq_pop` swaps slot i down, every slot but i is in heap order with
   * its parent, and i's parent may sit above i's children.
   */
  ghost predicate SinkOrdered(a: seq<HuffNode>, size: nat, i: nat)
    requires size <= |a|
  {
    (forall k | 0 < k < size && Parent(k) != i :: a[Parent(k)].frequency <= a[k].frequency) &&
    (forall k | 0 < k < size && Parent(k) == i && i > 0 :: a[Parent(i)].frequency <= a[k].frequency)
  }

  /** The children of slot i are slots 2i + 1 and 2i + 2. */
  lemma Children(i: nat, k: nat)
    requires k > 0
    ensures Parent(k) == i <==> (k == 2 * i + 1 || k == 2 * i + 2)
  {
  }

  /** Swapping slot i with its lightest child, lighter than i, moves the disorder down to that child. */
  lemma SinkDown(a: seq<HuffNode>, size: nat, i: nat, c: nat)
    requires size <= |a| && c < size && (c == 2 * i + 1 || c == 2 * i + 2) && SinkOrdered(a, size, i)
    requires a[c].frequency < a[i].frequency
    requires 2 * i + 1 < size ==> a[c].frequency <= a[2 * i + 1].frequency
    requires 2 * i + 2 < size ==> a[c].frequency <= a[2 * i + 2].frequency
    ensures SinkOrdered(a[i := a[c]][c := a[i]], size, c)
    ensures multiset(a[i := a[c]][c := a[i]][..size]) == multiset(a[..size])
  {
    SwapMultiset(a, size, i, c);
    var b := a[i := a[c]][c := a[i]];
    Children(i, c);
    forall k | 0 < k < size && Parent(k) != c
      ensures b[Parent(k)].frequency <= b[k].frequency
    {
      Children(i, k);
      Children(c, k);
    }
    forall k | 0 < k < size && Parent(k) == c
      ensures b[Parent(c)].frequency <= b[k].frequency
    {
      Children(i, k);
    }
  }

  lemma SwapMultiset(a: seq<HuffNode>, size: nat, i: nat, c: nat)
    requires size <= |a| && i < size && c < size
    ensures multiset(a[i := a[c]][c := a[i]][..size]) == multiset(a[..size])
  {
    assert a[i := a[c]][c := a[i]][..size] == a[..size][i := a[c]][c := a[i]];
  }

  /** Slot i no heavier than its children ends the disorder. */
  lemma SinkDone(a: seq<HuffNode>, size: nat, i: nat)
    requires size <= |a| && SinkOrdered(a, size, i)
    requires 2 * i + 1 < size ==> a[i].frequency <= a[2 * i + 1].frequency
    requires 2 * i + 2 < size ==> a[i].frequency <= a[2 * i + 2].frequency
    ensures HeapOrdered(a, size)
  {
    forall k | 0 < k < size
      ensures a[Parent(k)].frequency <= a[k].frequency
    {
      Children(i, k);
    }
  }

  /** Every node of a min-heap is at least as heavy as its root. */
  lemma HeapRootIsMinAll(a: seq<HuffNode>, size: nat)
    requires 0 < size <= |a| && HeapOrdered(a, size)
    ensures forall x | x in multiset(a[..size]) :: a[0].frequency <= x.frequency
  {
    forall x | x in multiset(a[..size])
      ensures a[0].frequency <= x.frequency
    {
      var k :| 0 <= k < size && a[..size][k] == x;
      HeapRootIsMin(a, size, k);
    }
  }

  /** Moving the last of size + 1 slots to the root removes the root and leaves disorder only at slot 0. */
  lemma RemoveRoot(a: seq<HuffNode>, size: nat)
    requires size < |a| && HeapOrdered(a, size + 1)
    ensures SinkOrdered(a[0 := a[size]], size, 0)
    ensures multiset(a[0 := a[size]][..size]) == multiset(a[..size + 1]) - multiset{a[0]}
  {
    if size > 0 {
      assert a[..size + 1] == [a[0]] + a[1..size] + [a[size]];
      assert a[0 := a[size]][..size] == [a[size]] + a[1..size];
    } else {
      assert a[..size + 1] == [a[0]];
    }
  }

  /** The sift-up loop of `pq_push`: the hole at slot `size - 1` moves up until `node` fits in it. */
  method SiftUp(a: array<HuffNode>, size: nat, node: HuffNode)
    requires 0 < size <= a.Length && HeapOrdered(a[..], size - 1)
    modifies a
    ensures HeapOrdered(a[..], size)
    ensures multiset(a[..size]) == multiset(old(a[..size - 1])) + multiset{node}
  {
    var i := size - 1;
    assert a[..size][i := node] == a[..size - 1] + [node];
    while i > 0 && a[(i - 1) / 2].frequency > node.frequency
      invariant 0 <= i < size
      invariant multiset(a[..size][i := node]) == multiset(old(a[..size - 1])) + multiset{node}
      invariant HoleOrdered(a[..], size, i, node)
    {
      HoleUp(a[..], size, i, node);
      var p := (i - 1) / 2;
      a[i] := a[p];
      i := p;
    }
    HoleFill(a[..], size, i, node);
    ghost var s := a[..];
    a[i] := node;
    assert a[..] == s[i := node] && a[..size] == s[..size][i := node];
  }

  /** The sift-down loop of `pq_pop`: slot 0 is swapped down past its lightest child until it is no heavier than its children. */
  method SiftDown(a: array<HuffNode>, size: nat)
    requires size <= a.Length && SinkOrdered(a[..], size, 0)
    modifies a
    ensures HeapOrdered(a[..], size)
    ensures multiset(a[..size]) == multiset(old(a[..size]))
  {
    var i := 0;
    while i * 2 + 1 < size
      invariant i == 0 || i < size
      invariant multiset(a[..size]) == multiset(old(a[..size]))
      invariant SinkOrdered(a[..], size, i)
      decreases size - i
    {
      var next := SinkStep(a, size, i);
      if next == i {
        return;
      }
      i := next;
    }
    SinkDone(a[..], size, i);
  }

  /**
   * One pass of the sift-down loop at slot i: find the lightest of i and
   * its children; if that is a child, swap it with i and go on from there.
   * Staying put means the heap is whole.
   */
  method SinkStep(a: array<HuffNode>, size: nat, i: nat) returns (next: nat)
    requires size <= a.Length && i * 2 + 1 < size && SinkOrdered(a[..], size, i)
    modifies a
    ensures multiset(a[..size]) == multiset(old(a[..size]))
    ensures next == i ==> HeapOrdered(a[..], size)
    ensures next != i ==> i < next < size && SinkOrdered(a[..], size, next)
  {
    var smallest := Lightest(a, size, i);
    if smallest == i {
      SinkDone(a[..], size, i);
      return i;
    }
    SinkDown(a[..], size, i, smallest);
    var temp := a[i];
    a[i] := a[smallest];
    a[smallest] := temp;
    return smallest;
  }

  /** The slot among i and its children with the least frequency, i on a tie, then the left child. */
  method Lightest(a: array<HuffNode>, size: nat, i: nat) returns (smallest: nat)
    requires size <= a.Length && i < size
    ensures smallest == i || smallest == 2 * i + 1 || smallest == 2 * i + 2
    ensures smallest < size && a[smallest].frequency <= a[i].frequency
    ensures smallest != i ==> a[smallest].frequency < a[i].frequency
    ensures 2 * i + 1 < size ==> a[smallest].frequency <= a[2 * i + 1].frequency
    ensures 2 * i + 2 < size ==> a[smallest].frequency <= a[2 * i + 2].frequency
  {
    smallest := i;
    var left := i * 2 + 1;
    var right := i * 2 + 2;
    if left < size && a[left].frequency < a[smallest].frequency {
      smallest := left;
    }
    if right < size && a[right].frequency < a[smallest].frequency {
      smallest := right;
    }
  }

  class PriorityQueue {
    var nodes: array<HuffNode>
    var size: nat
    var capacity: nat

    ghost predicate Valid()
      reads this, nodes
    {
      nodes.Length == capacity && size <= capacity && HeapOrdered(nodes[..], size)
    }

    /** The nodes held, in no particular order. */
    ghost function Contents(): multiset<HuffNode>
      reads this, nodes
      requires size <= nodes.Length
    {
      multiset(nodes[..size])
    }

    /** `pq_create`: an empty queue with room for `capacity` nodes. */
    constructor (capacity: nat)
      ensures Valid() && fresh(nodes)
      ensures this.capacity == capacity && size == 0 && Contents() == multiset{}
    {
      nodes := new HuffNode[capacity](_ => Leaf(0, 0));
      size := 0;
      this.capacity := capacity;
    }

    /**
     * `pq_push`: move the hole at the end up past every parent heavier than
     * `node`, then put `node` in it. The source does not check for room.
     */
    method Push(node: HuffNode)
      requires Valid() && size < capacity
      modifies this, nodes
      ensures Valid() && nodes == old(nodes) && capacity == old(capacity)
      ensures size == old(size) + 1
      ensures Contents() == old(Contents()) + multiset{node}
    {
      size := size + 1;
      SiftUp(nodes, size, node);
    }

    /**
     * `pq_pop`: nothing from an empty queue; otherwise take the root, move
     * the last node into its slot and swap it down past its lighter child.
     */
    method Pop() returns (min: Option<HuffNode>)
      requires Valid()
      modifies this, nodes
      ensures Valid() && nodes == old(nodes) && capacity == old(capacity)
      ensures old(size) == 0 ==> min == None && size == 0
      ensures old(size) > 0 ==>
        min.Some? && min.value in old(Contents()) &&
        (forall x | x in old(Contents()) :: min.value.frequency <= x.frequency) &&
        size == old(size) - 1 &&
        Contents() == old(Contents()) - multiset{min.value}
    {
      if size == 0 {
        return None;
      }
      var m := nodes[0];
      HeapRootIsMinAll(nodes[..], size);
      RemoveRoot(nodes[..], size - 1);
      ghost var a := nodes[..];
      size := size - 1;
      nodes[0] := nodes[size];
      assert nodes[..] == a[0 := a[size]];
      SiftDown(nodes, size);
      return Some(m);
    }
  }
}
