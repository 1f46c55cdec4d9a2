# Adaptive DCT image compressor: entropy coding, quantization and image buffer

This project models three parts of the compressor in Dafny.

- **Entropy coding** (`src/entropy.c`):
  - the zigzag scan of an N×N block of quantized coefficients, and its inverse;
  - run-length coding of the scanned sequence into (run, value) symbols;
  - the frequency-ordered binary min-heap of Huffman nodes;
  - building the Huffman tree and reading its code table;
  - the size estimate of the encoded symbols.
- **Quantization** (`src/quantization.c`):
  - the quantization matrix made from a quality setting (the ITU-T T.81 Annex K Table K.1 luminance table for 8×8 blocks, a distance-based matrix otherwise);
  - its elementwise reciprocal;
  - the per-block adjustment driven by the block's variance;
  - quantization and dequantization of a block.
- **Image buffer** (`src/image.c`):
  - creating an image, with its parameter checks;
  - reading and writing one byte of the interleaved buffer;
  - the Y/Cb/Cr plane accessors under 4:4:4, 4:2:2 and 4:2:0 subsampling;
  - the padded row stride of 24-bit BMP rows.

Layout:

| file | module | contents |
|---|---|---|
| `matrix.dfy` | `Matrix` | the rows of a 2-D array as a sequence of sequences |
| `zigzag.dfy` | `Zigzag` | the scan order, `ToZigzag` and `FromZigzag` on values, and the two in-place scan loops proved against them |
| `runlength.dfy` | `RunLength` | `Encode` and `Decode` on sequences, the round trip, and the decoder's store guard as written |
| `huffman.dfy` | `Huffman` | Huffman trees as values, the code table read off a tree, prefix-freeness, decoding a code back to its leaf |
| `forest.dfy` | `Forest` | the set of trees the queue holds while the tree is built: leaves and weight are kept by a merge |
| `minheap.dfy` | `MinHeap` | the priority queue as a class over an array, with sift-up and sift-down |
| `entropy.dfy` | `Entropy` | the context class: growable symbol buffer, encode/decode, frequency table, tree building, code table, size estimate |
| `quantization.dfy` | `Quantization` | the matrices, rounding, variance, per-block adjustment, and the context class with quantize/dequantize |
| `image.dfy` | `Images` | the image class, its accessors, and the BMP row stride |

Arithmetic is exact:
- C `int` becomes Dafny `int` and `nat`;
- C `double` becomes `real`;
- C's `round` becomes `Quantization.Round` (halves away from zero).

State the source changes in place is modelled as classes:
- `EntropyContext`, `PriorityQueue`, `QuantContext` and `Image`;
- blocks as `array2`;
- buffers as `array`.

Each method is proved against a function on values, and the properties are proved about those functions.

Where the code and the written design differ, the model follows the code:
- **End of block.** The run-length encoder emits no (0, 0) end-of-block symbol. Its last symbol is the last entry together with the run of zeros before it. When the sequence ends in zeros, that symbol is (number of trailing zeros, 0), the last zero included. For the 16-entry example `[100, 0, 0, 50, 0, 0, 0, 0, 25, 0, …, 0]` this gives `(0,100) (2,50) (4,25) (7,0)`. `RunLength.EncodeExample` proves exactly this.
- **Single symbol.** When the symbols hold a single distinct value, the Huffman tree `build_huffman_codes` builds is one leaf, and its code is the empty string, not a 1-bit code. The size estimate then charges 0 bits for each value, 8 bits per symbol in all (`Entropy.TreeOfValues`, `Entropy.EntropyContext.BuildHuffmanCodes`). With two or more distinct values every code has at least one bit, so each symbol costs at least 9 bits.
- **Zigzag fixture.** The 4×4 sequence `[0,1,5,6,2,4,7,12,3,8,11,13,9,10,14,15]` is the scan position of each cell, row by row (`Zigzag.ScanPositions4`). It is not the scanned output of the block 0..15. The scanned output puts block entry (i, j) at that position (`Zigzag.ToZigzagAtPos`).
- **Dequantization.** Without the adaptive flag, dequantization multiplies by the reciprocal matrix, `quant · (1/q)`. It does not multiply by `q`. See Findings.

## Model

| member | source | states |
|---|---|---|
| Zigzag.Scan | src/entropy.c:162-177 | the visiting order of an n×n block has n² cells |
| Zigzag.ScanBijection | src/entropy.c:162-177 | the scan visits every cell of the block exactly once: step k is the cell whose closed-form position is k, and every cell (i, j) is visited at step Pos(n, i, j) |
| Zigzag.ScanAtPos | src/entropy.c:162-177 | cell (i, j) is visited at step Pos(n, i, j) = (cells on earlier diagonals) + (its rank along diagonal i+j in that diagonal's direction) |
| Zigzag.ScanVisitsEachCellOnce | src/entropy.c:162-177 | no cell is visited twice |
| Zigzag.ScanStartsAtDC | src/entropy.c:162-168 | the scan starts at the DC coefficient (0, 0) |
| Zigzag.ScanDiagonalsNondecreasing | src/entropy.c:162 | the diagonal index i + j never decreases along the scan (frequency order) |
| Zigzag.DiagonalOrder | src/entropy.c:162-177 | a cell the scan reaches no later than another lies on the same or an earlier diagonal |
| Zigzag.ScanAlternatesDirection | src/entropy.c:164-176 | within a diagonal, even diagonals are walked up-right (row decreasing) and odd ones down-left (row increasing) |
| Zigzag.OffsetTriangle | src/entropy.c:162-177 | before diagonal s ≤ n the scan has visited s(s+1)/2 cells |
| Zigzag.OffsetTail | src/entropy.c:162-177 | past the main anti-diagonal, the diagonals still to come hold the remaining triangle of cells |
| Zigzag.OffsetTotal | src/entropy.c:162-177 | the 2n−1 diagonals hold all n² cells, so `index` stops at n² |
| Zigzag.PosInRange | src/entropy.c:167 | every write position `index` lies in [0, n²) |
| Zigzag.ScanPositions4 | src/entropy.c:162-177 | the positions of the 4×4 cells, row by row, are 0 1 5 6 / 2 4 7 12 / 3 8 11 13 / 9 10 14 15 |
| Zigzag.ScanPositions8FirstRow | src/entropy.c:162-177 | the first row of an 8×8 block is scanned to positions 0 1 5 6 14 15 27 28, as in the JPEG zigzag order |
| Zigzag.ToZigzag | src/entropy.c:158-178 | the scanned sequence has n² entries |
| Zigzag.ToZigzagAtPos | src/entropy.c:167 | entry (i, j) of the block lands at index Pos(n, i, j) of the scanned sequence |
| Zigzag.FromZigzag | src/entropy.c:183-210 | unscanning gives an n×n block |
| Zigzag.FromZigzagAtScan | src/entropy.c:199 | entry k of the sequence lands in the k-th scanned cell |
| Zigzag.FromZigzagToZigzag | src/entropy.c:158-210 | unscanning the scan of a block gives the block back |
| Zigzag.ToZigzagFromZigzag | src/entropy.c:158-210 | scanning the unscan of a sequence gives the sequence back |
| Zigzag.BlockToZigzag | src/entropy.c:158-178 | `block_to_zigzag` fills the output array with exactly the scan of the block |
| Zigzag.ReadUpRight | src/entropy.c:164-168 | the up-right inner loop copies diagonal `sum` into the next DiagLen slots, leaving earlier slots alone |
| Zigzag.ReadDownLeft | src/entropy.c:171-176 | the down-left inner loop does the same for odd diagonals |
| Zigzag.ZigzagToBlock | src/entropy.c:183-210 | `zigzag_to_block` leaves the block equal to the unscan of the input |
| Zigzag.ClearBlock | src/entropy.c:186-191 | the block is zeroed before the scatter |
| Zigzag.WriteDiagonal | src/entropy.c:194-209 | one pass of the outer loop scatters diagonal `sum` and advances `index` to the start of the next diagonal |
| Zigzag.WriteUpRight | src/entropy.c:196-200 | the up-right inner loop writes the cells of an even diagonal from the sequence and no other cell |
| Zigzag.WriteDownLeft | src/entropy.c:203-207 | the down-left inner loop does the same for odd diagonals |
| Zigzag.ScanRoundTrip | src/entropy.c:158-210 | running `block_to_zigzag` then `zigzag_to_block` rebuilds the block |
| RunLength.EncodeFrom | src/entropy.c:226-252 | from entry i on, the loop emits at most one symbol per remaining entry, and at least one while an entry remains |
| RunLength.Encode | src/entropy.c:216-256 | a non-empty sequence gives between 1 and n symbols; an empty one gives none |
| RunLength.EncodeRunsNonnegative | src/entropy.c:226-250 | every emitted run is a count of zeros, never negative |
| RunLength.EncodeValuesNonzero | src/entropy.c:230 | every symbol but the last carries a nonzero value |
| RunLength.EncodeLastSymbol | src/entropy.c:230-234 | the last symbol carries the last entry; if that entry is zero, its run counts exactly the maximal trailing run of zeros, the last one included |
| RunLength.EncodeCount | src/entropy.c:226-250 | the runs plus the nonzero values account for every entry of the sequence |
| RunLength.EncodeExample | src/entropy.c:228-252 | `[100,0,0,50,0,0,0,0,25,0,0,0,0,0,0,0]` encodes to (0,100) (2,50) (4,25) (7,0) |
| RunLength.Decode | src/entropy.c:333-352 | decoding into `size` slots gives `size` values |
| RunLength.DecodeEncode | src/entropy.c:216-358 | decoding the encoder's symbols into a buffer of the sequence's length gives the sequence back |
| RunLength.StoresAsWrittenBeforeBuffer | src/entropy.c:346-351 | as written, a first symbol with a negative run makes the decoder store at a negative position (see Findings) |
| RunLength.EncodedStoresWithinBuffer | src/entropy.c:346-351 | for symbols the encoder made, the guard as written only ever stores inside the buffer |
| Huffman.Merge | src/entropy.c:302-304 | the parent of two popped nodes has them as left and right child and the sum of their frequencies |
| Huffman.Codes | src/entropy.c:100-123 | `generate_codes` writes exactly one entry per leaf of the tree |
| Huffman.LeafCount | src/entropy.c:100-110 | every tree has a leaf, and exactly the single-leaf tree has only one, so any internal root has two or more leaves |
| Huffman.CodesSymbols | src/entropy.c:100-123 | `generate_codes` writes one entry per leaf, in left-to-right leaf order, with that leaf's value |
| Huffman.CodesExtendPrefix | src/entropy.c:113-122 | every code written below a prefix starts with that prefix |
| Huffman.CodesDepth | src/entropy.c:100-123 | no code is longer than its prefix plus the depth of the tree below it |
| Huffman.CodesWalk | src/entropy.c:100-123 | following the code of an entry from the subtree reached by the prefix ends at that entry's leaf |
| Huffman.CodesDecodeToTheirLeaf | src/entropy.c:100-123 | following any code from the root ends exactly at the leaf it was written for |
| Huffman.CodesPrefixFree | src/entropy.c:113-122 | no code is a prefix of another, so the table is uniquely decodable |
| Huffman.CodesOfLeafAndInternal | src/entropy.c:104-110 | a one-leaf tree gets the empty code; every code of a tree with an internal root has at least one bit |
| Forest.ForestConcat | src/entropy.c:298-307 | the leaves and the weight of two groups of trees side by side are those of each group |
| Forest.RemoveAt | src/entropy.c:299-300 | popping a tree takes exactly that tree out of the queue's contents |
| Forest.ForestRemove | src/entropy.c:299-300 | taking a tree out of the queue removes its leaves and its frequency, nothing else |
| Forest.ForestMerge | src/entropy.c:298-307 | replacing the two popped trees by their parent keeps the multiset of leaves and the total weight, and leaves one tree fewer |
| MinHeap.HeapRootIsMin | src/entropy.c:36-78 | in a heap-ordered array the root is no heavier than any node |
| MinHeap.HeapRootIsMinAll | src/entropy.c:51 | the root is a lightest node of the whole queue |
| MinHeap.Children | src/entropy.c:40-59 | slot (k−1)/2 is the parent exactly of slots 2i+1 and 2i+2 |
| MinHeap.SiftUp | src/entropy.c:37-45 | the sift-up loop of `pq_push` restores heap order and adds exactly the new node |
| MinHeap.SiftDown | src/entropy.c:55-75 | the heapify loop of `pq_pop` restores heap order and keeps the contents |
| MinHeap.SinkStep | src/entropy.c:57-74 | one heapify step keeps the contents and either stops on a heap or moves the hole strictly down |
| MinHeap.Lightest | src/entropy.c:57-65 | the chosen slot is the lightest of a node and its children, and differs from the node only when strictly lighter |
| MinHeap.PriorityQueue.constructor | src/entropy.c:23-29 | `pq_create`: an empty queue with the given capacity |
| MinHeap.PriorityQueue.Push | src/entropy.c:36-46 | `pq_push` adds exactly the node and keeps heap order |
| MinHeap.PriorityQueue.Pop | src/entropy.c:48-78 | `pq_pop` returns NULL on an empty queue, otherwise a node of least frequency, removed from the contents, with heap order kept |
| Entropy.MaxAbsIsMax | src/entropy.c:265-270 | `max_symbol` is the largest magnitude of the values, 0 when there are none, and attained by some value |
| Entropy.PresentCount | src/entropy.c:291-316 | the values with a positive count each appear once among the leaves pushed, and no other value does |
| Entropy.HuffmanBitsAtLeastRuns | src/entropy.c:369-391 | every symbol costs at least its 8 run bits |
| Entropy.HuffmanBitsSingleValue | src/entropy.c:369-391 | with a single one-leaf code table, each symbol costs exactly its 8 run bits |
| Entropy.HuffmanBitsSeveralValues | src/entropy.c:369-391 | when every code has at least one bit, every symbol costs at least 9 bits |
| Entropy.TreeOfValues | src/entropy.c:261-391 | a tree whose leaves are the distinct values, each once, is a single leaf exactly when there is one distinct value; then the table is that value with the empty code and the size is 8 bits per symbol; otherwise every code has at least one bit and the size is at least 9 bits per symbol |
| Entropy.ValueBitsOfCode | src/entropy.c:374-383 | a value whose code is the only one for it costs the length of that code |
| Entropy.PushLeaves | src/entropy.c:290-295 | the queue holds one leaf per slot with a positive count, carrying the slot's value and count; their leaves are the present values and their weight the total count |
| Entropy.MergeForest | src/entropy.c:298-307 | the merge loop leaves one tree, or none when the queue was empty, with the same leaves and total weight |
| Entropy.MergeLightest | src/entropy.c:299-306 | one pass pops two trees, pushes their parent, and keeps leaves and weight |
| Entropy.GenerateCodes | src/entropy.c:100-123 | `generate_codes` writes exactly `Codes(root, prefix)` into the next slots and advances `index` by the number of leaves, touching no other slot |
| Entropy.BuildTree | src/entropy.c:289-310 | the root's leaves are the values with a positive count, each once, and its frequency is the total count |
| Entropy.CodeTable | src/entropy.c:318-322 | the table holds `Codes(root, "")`, one entry per leaf |
| Entropy.TreeAndCodes | src/entropy.c:289-322 | the tree and the table built from a frequency table agree with each other and with the counts |
| Entropy.CountPresent | src/entropy.c:313-316 | `huffman_size` counts the slots with a positive count |
| Entropy.TableValues | src/entropy.c:273-287 | the slots with a positive count are exactly the values that occur |
| Entropy.BlockRoundTrip | src/entropy.c:216-358 | scanning and run-length encoding a block, then decoding and unscanning, gives the block back |
| Entropy.EntropyContext.constructor | src/entropy.c:128-137 | `entropy_init`: empty symbol buffer of capacity 64, no code table |
| Entropy.EntropyContext.Grow | src/entropy.c:237-240 | the buffer doubles and keeps its symbols |
| Entropy.EntropyContext.Append | src/entropy.c:236-245 | appending a symbol adds exactly it at the end, doubling the buffer only when full |
| Entropy.EntropyContext.ScanEntry | src/entropy.c:229-251 | one loop step emits what `Encode` emits at that entry |
| Entropy.EntropyContext.RunLengthEncode | src/entropy.c:216-256 | the context's symbols become the run-length encoding of the block's scan, and their number is returned |
| Entropy.EntropyContext.RunLengthDecode | src/entropy.c:333-358 | the block becomes the unscan of the decoded symbols; stores land only inside the buffer |
| Entropy.EntropyContext.MaxSymbol | src/entropy.c:265-270 | the loop finds the largest value magnitude |
| Entropy.EntropyContext.Frequencies | src/entropy.c:273-287 | slot k counts the symbols of value k − (max_symbol + 1); the counts sum to `count` |
| Entropy.EntropyContext.CountSymbol | src/entropy.c:278-286 | one loop step counts one more symbol in its slot |
| Entropy.EntropyContext.ValueTable | src/entropy.c:265-287 | the slots with a positive count are exactly the distinct values |
| Entropy.EntropyContext.HuffmanTable | src/entropy.c:265-322 | the tree has one leaf per distinct value and weight `count`; the table is its codes, one per distinct value |
| Entropy.EntropyContext.BuildHuffmanCodes | src/entropy.c:261-328 | nothing changes when Huffman coding is off or there are no symbols; otherwise the code table is the code read off a tree whose leaves are the distinct values, each once, one entry per distinct value (prefix-free by `Huffman.CodesPrefixFree`); the tree is a single leaf exactly when there is one distinct value, whose table is then that value with the empty code; with two or more, every code has at least one bit |
| Entropy.EntropyContext.CodeLength | src/entropy.c:373-387 | the bits charged for a value: its first code's length, or 8 when it has none |
| Entropy.EntropyContext.GetEncodedSize | src/entropy.c:363-399 | with a code table, the code bits plus 8 run bits per symbol; otherwise 24 bits per symbol |
| Quantization.LumaTableInRange | src/quantization.c:8-17 | the 8×8 luminance table has entries in [1, 255] |
| Quantization.Round | src/quantization.c:124 | C's `round`: for x ≥ 0 the integer in (x − ½, x + ½], for x < 0 the one in [x − ½, x + ½), so halves go away from zero |
| Quantization.RoundNearest | src/quantization.c:124 | `round` moves a value by at most one half, symmetrically about zero |
| Quantization.ReconstructWithinHalfStep | src/quantization.c:124 | dividing by a step, rounding and multiplying back lands within half a step |
| Quantization.ClampQuality | src/quantization.c:26-31 | the quality is clamped to [1, 100] and unchanged inside it |
| Quantization.ScaleFactorShape | src/quantization.c:55-60 | the scale factor is 1 at quality 50, never increases with quality, and is nonnegative up to 100 |
| Quantization.ClampCell | src/quantization.c:68-91 | a cell is clamped to [1, 255] and unchanged inside it |
| Quantization.QuantCellRange | src/quantization.c:51-99 | every quantization step is in [1, 255]; at quality 50 the 8×8 matrix is the luminance table itself |
| Quantization.GenerateQuantMatrix | src/quantization.c:51-99 | a fresh n×n matrix whose cells are the clamped scaled table entries (8×8) or the clamped distance-based values (other sizes) |
| Quantization.CellValue | src/quantization.c:66-93 | one cell, scaled and clamped |
| Quantization.ScaledCell | src/quantization.c:63-84 | one cell before the clamp, from the table or from the distance to DC |
| Quantization.GenerateDequantMatrix | src/quantization.c:101-111 | a fresh matrix of the reciprocals of the cells |
| Quantization.NormVariance | src/quantization.c:186 | the normalised variance lies in [0.1, 1] and is variance/1000 in between |
| Quantization.AdjustScaleRange | src/quantization.c:186-194 | the quantize scale lies in [1, 1.9] and does not grow with variance; the dequantize scale is its reciprocal, in (0, 1] |
| Quantization.AdjustedCellFacts | src/quantization.c:196-206 | DC keeps its source value; dequantize cells are scaled only; a quantize cell of at least 1 stays at least 1 |
| Quantization.FlattenLength | src/quantization.c:158-163 | the n×n block read row by row has n² values |
| Quantization.VarianceNonnegative | src/quantization.c:165-166 | mean of squares minus square of mean is never negative |
| Quantization.CalculateBlockVariance | src/quantization.c:153-169 | the loops compute the population variance of the block's values, which is nonnegative |
| Quantization.AddRow | src/quantization.c:159-162 | the inner loop adds one row's values and squares to the running sums |
| Quantization.Reciprocal | src/quantization.c:106 | the reciprocal of a step in [1, 255] is in (0, 1] and inverts back to the step |
| Quantization.QuantContext.constructor | src/quantization.c:19-41 | `quant_init`: quality clamped, quantization matrix as generated, dequantization matrix its reciprocal |
| Quantization.QuantContext.QuantStep | src/quantization.c:113-124 | the divisor of cell (i, j) is at least 1; it is the context's matrix cell unless adaptive mode scales a non-DC cell |
| Quantization.QuantContext.DequantFactor | src/quantization.c:133-144 | the factor cell (i, j) is multiplied by is positive |
| Quantization.QuantContext.AdaptiveStepsAgree | src/quantization.c:133-211 | in adaptive mode the dequantize factor equals the quantize step, for the same variance |
| Quantization.QuantContext.NonAdaptiveStepsInverse | src/quantization.c:139-144 | in fixed mode the dequantize factor is the reciprocal of the quantize step (see Findings) |
| Quantization.QuantContext.AdjustMatrixForBlock | src/quantization.c:171-211 | a fresh matrix: DC copied from the source, other cells scaled, and quantize cells raised to at least 1 |
| Quantization.QuantContext.Quantize | src/quantization.c:113-131 | each output coefficient is the rounded quotient of the DCT coefficient by its step |
| Quantization.QuantContext.Dequantize | src/quantization.c:133-151 | as written: each coefficient times the dequantize factor |
| Quantization.QuantContext.DequantizeIntended | src/quantization.c:133-151 | corrected: each coefficient times its quantize step, in both modes |
| Quantization.QuantContext.QuantizeRoundTrip | src/quantization.c:113-151 | quantizing, then dequantizing as intended, reconstructs a coefficient within half a step |
| Quantization.DivideAndRound | src/quantization.c:122-126 | the loop rounds each quotient |
| Quantization.Multiply | src/quantization.c:142-146 | the loop multiplies each coefficient by the cell or its reciprocal |
| Quantization.AdjustedInverse | src/quantization.c:186-206 | scaling the reciprocal of a step by the dequantize scale and inverting gives the step scaled by the quantize scale |
| Quantization.NonAdaptiveRoundTripShrinks | src/quantization.c:139-144 | at quality 50 a DC coefficient of 160 quantizes to 10 and dequantizes as written to 0.625, not 160 |
| Images.FormatOf | src/image.c:68 | only the three format codes 0, 1 and 2 are accepted |
| Images.Image.constructor | src/image.c:79-110 | zero-filled buffer of width·height·channels·bytes-per-sample bytes, chroma planes image-sized, 4:4:4, and for 3-channel YCbCr the three planes back to back |
| Images.ImageCreate | src/image.c:65-113 | NULL exactly when a dimension or the channel count is not positive, the depth is not 8 or 16, or the format is unknown; otherwise an image of that shape |
| Images.PixelIndexInBuffer | src/image.c:336 | every in-range sample position lies inside the buffer |
| Images.PixelIndexInjective | src/image.c:336 | distinct samples have distinct positions |
| Images.GetPixel | src/image.c:330-339 | 0 for a null image or any coordinate or channel outside the image; otherwise the byte at (y·width + x)·channels + channel, which lies inside the buffer |
| Images.SetPixel | src/image.c:344-353 | writes exactly the one byte of the sample, nothing out of range, and reading it back gives the value |
| Images.GetY | src/image.c:358-365 | 0 without an image, outside YCbCr, without a Y plane or outside the image; otherwise the Y plane byte at y·width + x, inside the buffer |
| Images.GetCb | src/image.c:370-398 | 128 without an image, outside YCbCr, without a Cb plane, outside the image, or at x ≥ cb_width or y ≥ cb_height; otherwise the Cb plane byte at ChromaIndex: y·width + x in 4:4:4 (the full width), y·cb_width + x/2 in 4:2:2, (y/2)·cb_width + x/2 in 4:2:0, inside the buffer |
| Images.GetCr | src/image.c:403-434 | 128 without an image, outside YCbCr, without a Cr plane, or outside the image (cr_width and cr_height are not checked); otherwise the Cr plane byte at ChromaIndex with cr_width in every mode, 4:4:4 included, inside the buffer |
| Images.AccessorFallbacks | src/image.c:358-414 | with no image, a non-YCbCr image or a pixel outside it, Y reads 0 and Cb, Cr read 128 |
| Images.PlanesDisjoint | src/image.c:358-415 | on a created 3-channel YCbCr image, Y, Cb and Cr of pixel (x, y) come from three disjoint ranges of the buffer |
| Images.ChromaShared422 | src/image.c:383-422 | in 4:2:2 the two pixels of a column pair read the same chroma |
| Images.ChromaShared420 | src/image.c:389-429 | in 4:2:0 the four pixels of a 2×2 square read the same chroma |
| Images.RowStrideIsLeastMultiple | src/image.c:174-175 | the BMP row stride is the least multiple of 4 holding 3·width bytes, so the padding is 0 to 3 bytes |

## Left out

- `pq_free`, `free_huffman_tree`, `entropy_free`, `quant_free` and `image_free` are not modelled. Deallocation has no counterpart in Dafny.
- Allocation failures of `malloc`, `calloc` and `realloc` are not modelled. Every allocation is assumed to succeed. The `exit` in `quant_init` on failure is not modelled.
- Entropy.EntropyContext.BuildHuffmanCodes: the old code table is replaced, not freed. The leak of the source is not visible.
- Entropy.GenerateCodes: the fixed-size prefix buffers (`MAX_HUFFMAN_CODE_LEN` bytes) are not modelled. A tree deep enough for its codes to fill them would overflow them in the source; the model's strings are unbounded. `Huffman.CodesDepth` bounds every code by the depth of the tree.
- Entropy.GenerateCodes: the `root == NULL` case cannot arise. The tree is only built from a positive total count.
- Internal nodes carry no symbol in the model. The source gives them -1, which is never read.
- Entropy.EntropyContext.GetEncodedSize: `total_bits` and `count * 24` are unbounded here. The source's `int` could overflow for huge symbol counts.
- Quantization.QuantContext.Quantize: the `(int)` cast of the rounded quotient is unbounded here. It would overflow in the source for quotients beyond the `int` range.
- Images.ImageCreate: `data_size` is unbounded here. The source's `int` product could overflow for very large images.
- Huffman optimality (minimal weighted code length) is not claimed. The model proves the tree holds every present value once, with the right total weight, and that its code is prefix-free and decodes.
- Tie-breaking among equal frequencies follows the heap as written. No particular order is claimed.
- Quantization: `double` arithmetic is modelled with exact reals. Rounding error of floating point is not captured.
- Quantization.GenerateQuantMatrix: `sqrt` is a parameter of type `real -> real`, so nothing is assumed about it.
- Quantization.CalculateBlockVariance: requires a positive block size. For block size 0 the source divides 0 by 0.
- Quantization: negative block sizes are excluded by the types (`nat`). For them the source's loops do nothing.
- Entropy.EntropyContext.RunLengthEncode: the block size is a `nat`, as in all entropy methods; C's `block_size` is an `int`. A negative block size is not modelled. In C, `size = block_size * block_size` is still positive for it. `block_to_zigzag` then writes nothing, and the encoder reads `size` uninitialised entries of its `malloc`ed buffer and emits symbols from them.
- Entropy.EntropyContext.RunLengthDecode: with a negative block size, C's zero-fill and decode loops still run over `size = block_size * block_size` entries, but `zigzag_to_block` writes nothing. This case is excluded by the `nat` block size.
- Entropy.EntropyContext.MaxSymbol: `abs` is exact here. In C, `abs(INT_MIN)` overflows; this case is not modelled.
- Entropy.EntropyContext.ValueTable: the slot count `2 * max_symbol + 2` is exact here. In C it can overflow `int` for values near the `int` limits; this is not modelled.
- Quantization.GenerateQuantMatrix: requires a quality of at least 1. C also accepts a quality of 0 or less. Then `5000.0 / quality` is infinite or negative, and the cells clamp to 255 or to 1. `quant_init` clamps the quality to [1, 100] before its call, and the tests pass 10, 50 and 90, so this case is not modelled.
- Quantization.QuantContext.Dequantize: adaptive dequantization needs the encoder's variance. The model takes it as a parameter. Transmitting it is outside the core.
- Images: the `default` branches of the subsampling switches are unreachable here. The modes are a three-valued datatype.
- Images: bitmap file reading and writing (`image_load_bmp`, `image_save_bmp`) are left out. Only their row stride is modelled, because the rest is file I/O.
- Images: colour conversion (`image_rgb_to_ycbcr` and its inverse), chroma subsampling and the remainder of `src/image.c` are not part of this model.
- Images.SetPixel: the write position ignores the bytes per sample, as the source does. For 16-bit images the buffer is twice as large as what is addressed, so no write leaves it.
- The DCT (`src/dct.c`), the utilities (`src/utils.c`) and the driver (`main.c`) are not part of this model.

## Findings

| source | as written | input that shows it | evidently intended | confidence | as-written member | corrected member |
|---|---|---|---|---|---|---|
| src/entropy.c:349 | the decoder's guard checks only `pos < size`, so a symbol whose run makes `pos` negative is stored before the buffer | symbols `[(-1, 5)]` for any block: the first store is at position -1 | store only when `0 <= pos < size` | not executed; only reachable from symbols the encoder never makes | RunLength.StoresAsWrittenBeforeBuffer | Entropy.EntropyContext.RunLengthDecode |
| src/quantization.c:144 | in fixed (non-adaptive) mode dequantization multiplies by the reciprocal matrix cell `1/q`, so the coefficient is divided by the step a second time | quality 50, 8×8, DC coefficient 160: step 16, quantized 10, dequantized 10·(1/16) = 0.625 instead of 160 | multiply by the step `q`, as the adaptive branch does (it inverts the scaled reciprocal) | not executed | Quantization.NonAdaptiveRoundTripShrinks | Quantization.QuantContext.DequantizeIntended |
