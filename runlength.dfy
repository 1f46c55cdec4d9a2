/**
 * Run-length coding of a zigzag-ordered coefficient sequence
 * (`run_length_encode` and `run_length_decode` in src/entropy.c), as
 * functions on sequences. The methods of `Entropy.EntropyContext` that
 * fill and read the context's symbol buffer are proved equal to these.
 *
 * A symbol is a pair (run, value): `run` zeros followed by `value`. The
 * encoder emits a symbol for every nonzero entry and one more for the last
 * entry whatever its value; when that last entry is zero its symbol has
 * value 0 and its run counts all trailing zeros, the last one included.
 * There is no separate end-of-block marker.
 */
module RunLength {

  /** `RLESymbol`: a run of zeros, then a value. */
  datatype RleSymbol = RleSymbol(run: int, value: int)

  // ---------------------------------------------------------------------
  // Encoding

  /**
   * The symbols the encoder emits from entry i on, having counted `zeros`
   * zero entries since the last symbol.
   */
  function EncodeFrom(z: seq<int>, i: nat, zeros: nat): (e: seq<RleSymbol>)
    requires i <= |z|
    ensures |e| <= |z| - i
    ensures i < |z| ==> |e| >= 1
    decreases |z| - i
  {
    if i == |z| then []
    else if z[i] != 0 || i == |z| - 1 then
      var run := if i == |z| - 1 && z[i] == 0 then zeros + 1 else zeros;
      [RleSymbol(run, z[i])] + EncodeFrom(z, i + 1, 0)
    else
      EncodeFrom(z, i + 1, zeros + 1)
  }

  /**
   * The symbols `run_length_encode` emits for the zigzag sequence `z`: at
   * most one per entry, and at least one for a nonempty sequence.
   */
  function Encode(z: seq<int>): (e: seq<RleSymbol>)
    ensures |e| <= |z|
    ensures |z| > 0 ==> |e| >= 1
    ensures |z| == 0 ==> e == []
  {
    EncodeFrom(z, 0, 0)
  }

  /** Sum of the runs of `e`. */
  function RunSum(e: seq<RleSymbol>): int {
    if e == [] then 0 else e[0].run + RunSum(e[1..])
  }

  /** Number of symbols of `e` with a nonzero value. */
  function NonzeroCount(e: seq<RleSymbol>): nat {
    if e == [] then 0 else (if e[0].value != 0 then 1 else 0) + NonzeroCount(e[1..])
  }

  /** Entries lo .. hi-1 of `z` are all zero. */
  predicate ZeroRange(z: seq<int>, lo: int, hi: int)
    requires 0 <= lo <= hi <= |z|
  {
    forall k | lo <= k < hi :: z[k] == 0
  }

  lemma {:induction false} EncodeFromRuns(z: seq<int>, i: nat, zeros: nat)
    requires i <= |z|
    ensures forall k | 0 <= k < |EncodeFrom(z, i, zeros)| :: EncodeFrom(z, i, zeros)[k].run >= 0
    decreases |z| - i
  {
    if i < |z| {
      EncodeFromRuns(z, i + 1, if z[i] != 0 || i == |z| - 1 then 0 else zeros + 1);
    }
  }

  /** Every run the encoder emits is a count, never negative. */
  lemma EncodeRunsNonnegative(z: seq<int>)
    ensures forall k | 0 <= k < |Encode(z)| :: Encode(z)[k].run >= 0
  {
    EncodeFromRuns(z, 0, 0);
  }

  lemma {:induction false} EncodeFromNonzero(z: seq<int>, i: nat, zeros: nat)
    requires i <= |z|
    ensures forall k | 0 <= k < |EncodeFrom(z, i, zeros)| - 1 :: EncodeFrom(z, i, zeros)[k].value != 0
    decreases |z| - i
  {
    if i < |z| {
      var zs := if z[i] != 0 || i == |z| - 1 then 0 else zeros + 1;
      EncodeFromNonzero(z, i + 1, zs);
      if z[i] != 0 || i == |z| - 1 {
        if i == |z| - 1 {
          assert EncodeFrom(z, i + 1, 0) == [];
        }
      }
    }
  }

  /** Every symbol but the last has a nonzero value. */
  lemma EncodeValuesNonzero(z: seq<int>)
    ensures forall k | 0 <= k < |Encode(z)| - 1 :: Encode(z)[k].value != 0
  {
    EncodeFromNonzero(z, 0, 0);
  }

  lemma {:induction false} EncodeFromLast(z: seq<int>, i: nat, zeros: nat)
    requires i < |z| && zeros <= i
    requires ZeroRange(z, i - zeros, i)
    requires i - zeros == 0 || z[i - zeros - 1] != 0
    ensures var e := EncodeFrom(z, i, zeros);
      |e| > 0 &&
      e[|e| - 1].value == z[|z| - 1] &&
      (z[|z| - 1] == 0 ==>
        var r := e[|e| - 1].run;
        0 < r <= |z| && ZeroRange(z, |z| - r, |z|) && (r == |z| || z[|z| - r - 1] != 0))
    decreases |z| - i
  {
    if i < |z| - 1 {
      if z[i] != 0 {
        EncodeFromLast(z, i + 1, 0);
      } else {
        EncodeFromLast(z, i + 1, zeros + 1);
      }
    }
  }

  /**
   * The last symbol carries the last entry. When that entry is zero, the
   * symbol's run r counts exactly the trailing zeros: the last r entries
   * are zero and the one before them, if any, is not.
   */
  lemma EncodeLastSymbol(z: seq<int>)
    requires |z| > 0
    ensures var e := Encode(z);
      |e| > 0 &&
      e[|e| - 1].value == z[|z| - 1] &&
      (z[|z| - 1] == 0 ==>
        var r := e[|e| - 1].run;
        0 < r <= |z| && ZeroRange(z, |z| - r, |z|) && (r == |z| || z[|z| - r - 1] != 0))
  {
    EncodeFromLast(z, 0, 0);
  }

  lemma {:induction false} EncodeFromCount(z: seq<int>, i: nat, zeros: nat)
    requires i <= |z|
    requires zeros == 0 || i < |z|
    ensures RunSum(EncodeFrom(z, i, zeros)) + NonzeroCount(EncodeFrom(z, i, zeros)) == |z| - i + zeros
    decreases |z| - i
  {
    if i < |z| {
      var e := EncodeFrom(z, i, zeros);
      if z[i] != 0 || i == |z| - 1 {
        EncodeFromCount(z, i + 1, 0);
        assert e[1..] == EncodeFrom(z, i + 1, 0);
      } else {
        EncodeFromCount(z, i + 1, zeros + 1);
      }
    }
  }

  /** The runs plus the nonzero-valued symbols account for every entry. */
  lemma EncodeCount(z: seq<int>)
    ensures RunSum(Encode(z)) + NonzeroCount(Encode(z)) == |z|
  {
    EncodeFromCount(z, 0, 0);
  }

  // ---------------------------------------------------------------------
  // Decoding

  /**
   * The symbols `syms` stored into `w` from position `pos` on: each symbol
   * skips its run, then stores its value if the position lies in `w`.
   */
  function DecodeInto(w: seq<int>, syms: seq<RleSymbol>, pos: int): (r: seq<int>)
    ensures |r| == |w|
    decreases syms
  {
    if syms == [] then w
    else
      var p := pos + syms[0].run;
      if 0 <= p < |w| then DecodeInto(w[p := syms[0].value], syms[1..], p + 1)
      else DecodeInto(w, syms[1..], p)
  }

  /** The sequence of `size` entries `run_length_decode` rebuilds from `syms`. */
  function Decode(syms: seq<RleSymbol>, size: nat): (z: seq<int>)
    ensures |z| == size
  {
    DecodeInto(seq(size, _ => 0), syms, 0)
  }

  /** `w` equals `z` before `pos` and is zero from `pos` on. */
  predicate DecodedUpTo(w: seq<int>, z: seq<int>, pos: nat)
    requires |w| == |z| && pos <= |z|
  {
    w[..pos] == z[..pos] && ZeroRange(w, pos, |w|)
  }

  lemma {:induction false} DecodeEncodeFrom(z: seq<int>, i: nat, zeros: nat, w: seq<int>)
    requires i <= |z| && zeros <= i && |w| == |z|
    requires zeros == 0 || i < |z|
    requires ZeroRange(z, i - zeros, i)
    requires DecodedUpTo(w, z, i - zeros)
    ensures DecodeInto(w, EncodeFrom(z, i, zeros), i - zeros) == z
    decreases |z| - i
  {
    var pos := i - zeros;
    if i == |z| {
      assert w == w[..pos] == z[..pos] == z;
    } else if z[i] != 0 || i == |z| - 1 {
      var e := EncodeFrom(z, i, zeros);
      assert e[1..] == EncodeFrom(z, i + 1, 0);
      if i == |z| - 1 && z[i] == 0 {
        assert EncodeFrom(z, i + 1, 0) == [];
        assert DecodeInto(w, e, pos) == DecodeInto(w, [], |z|) == w;
        assert w == z by {
          forall k | 0 <= k < |z|
            ensures w[k] == z[k]
          {
            if k < pos {
              assert w[..pos][k] == z[..pos][k];
            }
          }
        }
      } else {
        var w' := w[i := z[i]];
        assert DecodedUpTo(w', z, i + 1) by {
          forall k | 0 <= k < i + 1
            ensures w'[k] == z[k]
          {
            if k < pos {
              assert w[..pos][k] == z[..pos][k];
            }
          }
          assert w'[..i + 1] == z[..i + 1];
        }
        DecodeEncodeFrom(z, i + 1, 0, w');
      }
    } else {
      DecodeEncodeFrom(z, i + 1, zeros + 1, w);
    }
  }

  /** Decoding what the encoder emits gives the zigzag sequence back. */
  lemma DecodeEncode(z: seq<int>)
    ensures Decode(Encode(z), |z|) == z
  {
    var w := seq(|z|, _ => 0);
    assert DecodedUpTo(w, z, 0);
    DecodeEncodeFrom(z, 0, 0, w);
  }

  // ---------------------------------------------------------------------
  // The store guard as written

  /**
   * The positions at which `run_length_decode` as written stores, from
   * position `pos` on, into a buffer of `size` entries: its guard checks
   * only `pos < size`.
   */
  function StoresAsWritten(syms: seq<RleSymbol>, size: int, pos: int): seq<int> {
    if syms == [] then []
    else
      var p := pos + syms[0].run;
      if p < size then [p] + StoresAsWritten(syms[1..], size, p + 1)
      else StoresAsWritten(syms[1..], size, p)
  }

  /** A first symbol with a negative run makes the source store before the buffer. */
  lemma StoresAsWrittenBeforeBuffer(syms: seq<RleSymbol>, size: int)
    requires |syms| > 0 && syms[0].run < 0 && size > 0
    ensures |StoresAsWritten(syms, size, 0)| > 0 && StoresAsWritten(syms, size, 0)[0] < 0
  {
  }

  lemma {:induction false} StoresWithinBuffer(syms: seq<RleSymbol>, size: int, pos: int)
    requires pos >= 0
    requires forall k | 0 <= k < |syms| :: syms[k].run >= 0
    ensures forall k | 0 <= k < |StoresAsWritten(syms, size, pos)| :: 0 <= StoresAsWritten(syms, size, pos)[k] < size
  {
    if syms != [] {
      var p := pos + syms[0].run;
      StoresWithinBuffer(syms[1..], size, if p < size then p + 1 else p);
    }
  }

  /** For what the encoder emits, the guard as written is enough. */
  lemma EncodedStoresWithinBuffer(z: seq<int>)
    ensures forall k | 0 <= k < |StoresAsWritten(Encode(z), |z|, 0)| :: 0 <= StoresAsWritten(Encode(z), |z|, 0)[k] < |z|
  {
    EncodeRunsNonnegative(z);
    StoresWithinBuffer(Encode(z), |z|, 0);
  }

  /**
   * A 16-entry sequence ending in seven zeros: one symbol per nonzero
   * entry, then (7, 0) for the trailing zeros.
   */
  /** The trailing seven zeros of the example become the single symbol (7, 0). */
  lemma EncodeExampleTail(z: seq<int>)
    requires z == [100, 0, 0, 50, 0, 0, 0, 0, 25, 0, 0, 0, 0, 0, 0, 0]
    ensures EncodeFrom(z, 9, 0) == [RleSymbol(7, 0)]
  {
    assert EncodeFrom(z, 15, 6) == [RleSymbol(7, 0)];
    assert EncodeFrom(z, 13, 4) == EncodeFrom(z, 14, 5) == EncodeFrom(z, 15, 6);
    assert EncodeFrom(z, 11, 2) == EncodeFrom(z, 12, 3) == EncodeFrom(z, 13, 4);
    assert EncodeFrom(z, 9, 0) == EncodeFrom(z, 10, 1) == EncodeFrom(z, 11, 2);
  }

  lemma EncodeExample()
    ensures Encode([100, 0, 0, 50, 0, 0, 0, 0, 25, 0, 0, 0, 0, 0, 0, 0]) ==
      [RleSymbol(0, 100), RleSymbol(2, 50), RleSymbol(4, 25), RleSymbol(7, 0)]
  {
    var z := [100, 0, 0, 50, 0, 0, 0, 0, 25, 0, 0, 0, 0, 0, 0, 0];
    EncodeExampleTail(z);
    assert EncodeFrom(z, 8, 4) == [RleSymbol(4, 25)] + EncodeFrom(z, 9, 0);
    assert EncodeFrom(z, 6, 2) == EncodeFrom(z, 7, 3) == EncodeFrom(z, 8, 4);
    assert EncodeFrom(z, 4, 0) == EncodeFrom(z, 5, 1) == EncodeFrom(z, 6, 2);
    assert EncodeFrom(z, 3, 2) == [RleSymbol(2, 50)] + EncodeFrom(z, 4, 0);
    assert EncodeFrom(z, 1, 0) == EncodeFrom(z, 2, 1) == EncodeFrom(z, 3, 2);
    assert EncodeFrom(z, 0, 0) == [RleSymbol(0, 100)] + EncodeFrom(z, 1, 0);
  }
}
