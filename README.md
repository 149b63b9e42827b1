# Degree-preserving graph rewiring, in Dafny

This project models the rewiring engine of `mexRewire`, the MEX function in
`rewire_graph_mex/rewire_graph_cpp.cpp`, and proves properties of it. The engine
takes a weighted undirected graph, given as a dense N x N matrix. It returns a
random graph with the same vertex degrees and the same edge weights, obtained by
repeated double edge swaps. A swap replaces edges (v1, v2) and (v3, v4) by
(v1, v3) and (v2, v4). An optional constraint matrix restricts which pairs of
edges may be swapped. The project also models the flat-index helpers
`findCoordinates` and `findIndex` of `rewire_graph_mex/testing_c/helperMEX.h`.

Files:

- `wrappers.dfy`: module `Wrappers`, with `Option` and `Result`.
- `flat_index.dfy`: module `FlatIndex`. It holds `findCoordinates` and both
  `findIndex` overloads on 32-bit `int`. It also holds C's truncating `/` and
  `%`, written out over Dafny's Euclidean operators.
- `graph.dfy`: module `Graph`, the pure specification of the working matrix.
  - The matrix is a flat buffer of `N*N` reals. `Cell(g, n, i, j)` is buffer
    position `N*i + j`, which is how the source addresses `outGraph`. MATLAB
    stores matrices column-major, so `Cell(g, n, i, j)` is MATLAB element
    (j, i). The model's "row v" is MATLAB's column v, and its strict lower
    triangle is MATLAB's strict upper triangle. For an asymmetric input, the
    source therefore keeps MATLAB's `graph(j, i)` with j < i, and `InputDegree`
    and `LowerWeights` are read that way.
  - The module defines symmetry, the zero diagonal, the degree of a vertex (the
    number of nonzero entries in its row) and the multiset of nonzero weights
    below the diagonal.
  - `EdgeIndex` states that the edge vectors `i_srand` and `j_srand` name
    exactly the nonzero pairs, once each.
  - `Swapped` is the effect of the eight writes of one swap. The lemmas prove
    what a legal swap preserves.
- `extraction.dfy`: module `Extraction`, the scan of lines 49-62. It is an
  imperative method over the output `array`, and its loop invariants tie the
  array and the edge vectors to the input.
- `rewire.dfy`: module `Rewire`, which holds:
  - the draws, the argument checks, the success target and the verdict;
  - class `Rewiring`, whose fields are the swap loop's state: the output
    buffer as an `array<real>`, the edge vectors and the three counters;
  - the entry point `RewireGraph`.

The random source is an input sequence of raw `rand()` values, each in
0 .. RAND_MAX (glibc's RAND_MAX, 2^31 - 1). Each attempt consumes two values for
the edge draws. It consumes a third, for the orientation flip, only when the
cross test of line 93 passes, as in the source.

The model uses the corrected edge draw `Ne * r / (RAND_MAX + 1)`. The source's
`floor(Ne * unifRand())` can produce the index `Ne` (see Findings). The two
draws also differ on ordinary `rand()` values: with Ne = 3 and r = 1431655765
the source picks edge 2 and the model picks edge 1. So a given stream of
`rand()` values does not replay the source's run edge for edge.

## Model

| member | source | states |
|---|---|---|
| FlatIndex.TruncDiv | rewire_graph_mex/testing_c/helperMEX.h:185 | C's `/`: the remainder it leaves is smaller than the divisor in magnitude, lies between 0 and the dividend, and, unless it is zero, the quotient is negative exactly when the operands' signs differ |
| FlatIndex.TruncRem | rewire_graph_mex/testing_c/helperMEX.h:184 | C's `%`: dividend = divisor * quotient + remainder, with the remainder smaller than the divisor in magnitude and, unless it is zero, carrying the dividend's sign |
| FlatIndex.QuotientInRange | rewire_graph_mex/testing_c/helperMEX.h:185 | the truncated quotient of two 32-bit ints is again a 32-bit int, except for INT_MIN / -1 |
| FlatIndex.CoordinatesFacts | rewire_graph_mex/testing_c/helperMEX.h:184-185 | for a nonzero divisor and no INT_MIN / -1, C's quotient and remainder are 32-bit ints that rebuild the dividend, the remainder is smaller than the divisor in magnitude and, unless it is zero, carries the dividend's sign, and both are nonnegative (the remainder below the divisor) for a positive divisor and nonnegative dividend |
| FlatIndex.FindCoordinates | rewire_graph_mex/testing_c/helperMEX.h:182-186 | y * numRows + x equals the index; \|x\| < \|numRows\|; unless x is zero, it has the sign of the index; for numRows > 0 and index >= 0, 0 <= x < numRows and y >= 0 |
| FlatIndex.CoordinatesRoundTrip | rewire_graph_mex/testing_c/helperMEX.h:182-202 | `findIndex` of the coordinates `findCoordinates` returns stays within 32 bits and gives back the index, for every index and nonzero row count that C can divide |
| FlatIndex.IndexRoundTrip | rewire_graph_mex/testing_c/helperMEX.h:182-202 | for 0 <= x < numRows and y >= 0, `findCoordinates` of `findIndex(numRows, x, y)` gives back (x, y) |
| FlatIndex.FindIndex | rewire_graph_mex/testing_c/helperMEX.h:199-202 | for 0 <= x < numRows and y >= 0, the index of (x, y) lies in column y's block, and `findCoordinates` of the index gives back (x, y) |
| FlatIndex.FindIndex3 | rewire_graph_mex/testing_c/helperMEX.h:215-218 | for 0 <= x < numRows and 0 <= y < numCols, the index of (x, y, z) lies in layer z's block: 0 <= index - z * numRows * numCols < numRows * numCols |
| FlatIndex.IndexInjective | rewire_graph_mex/testing_c/helperMEX.h:199-202 | the 2-D `findIndex` is one-to-one on 0 <= x < numRows, y >= 0 |
| FlatIndex.Index3LayerZero | rewire_graph_mex/testing_c/helperMEX.h:199-218 | the 3-D `findIndex` with z = 0 equals the 2-D one |
| FlatIndex.Index3LayerStep | rewire_graph_mex/testing_c/helperMEX.h:215-218 | increasing z by one advances the 3-D index by numRows * numCols |
| FlatIndex.Index3ColumnStep | rewire_graph_mex/testing_c/helperMEX.h:215-218 | increasing y by one advances the 3-D index by numRows |
| Graph.PairWriteWeights | rewire_graph_mex/rewire_graph_cpp.cpp:57-58 | writing x to both cells of a symmetric pair replaces that pair's weight by x in the multiset of lower-triangle weights |
| Graph.Swapped | rewire_graph_mex/rewire_graph_cpp.cpp:104-113 | the eight writes keep the buffer's length and leave every position other than the eight written ones unchanged, whether or not the four vertices are distinct |
| Graph.CrossDistinct | rewire_graph_mex/rewire_graph_cpp.cpp:93 | the cross test holds exactly when the vertex sets {v1, v2} and {v3, v4} are disjoint |
| Graph.Retarget | rewire_graph_mex/rewire_graph_cpp.cpp:114-117 | the edge vector after the swap is `s[e1 := x1][e2 := x2]`: entry e2 holds x2, entry e1 holds x1 when e1 != e2, and every other entry is unchanged |
| Graph.TouchedDistinct | rewire_graph_mex/rewire_graph_cpp.cpp:104-113 | with four distinct vertices the eight buffer positions a swap writes are pairwise distinct |
| Graph.SwappedCell | rewire_graph_mex/rewire_graph_cpp.cpp:104-113 | for four pairwise distinct vertices, after the swap (v1, v3) holds w12 and (v2, v4) holds w34 in both orientations, (v1, v2) and (v3, v4) are zero in both orientations, and every other cell is unchanged |
| Graph.SwapPreservesSymmetry | rewire_graph_mex/rewire_graph_cpp.cpp:104-113 | a swap of four distinct vertices keeps a symmetric matrix symmetric |
| Graph.SwapPreservesZeroDiagonal | rewire_graph_mex/rewire_graph_cpp.cpp:104-113 | a swap of four distinct vertices keeps the diagonal zero |
| Graph.SwapPreservesDegree | rewire_graph_mex/rewire_graph_cpp.cpp:103-113 | on a symmetric matrix, with four pairwise distinct vertices, when both old pairs are edges and both new pairs are free, every vertex keeps its degree |
| Graph.SwapPreservesLowerWeights | rewire_graph_mex/rewire_graph_cpp.cpp:103-113 | on a symmetric matrix, with four pairwise distinct vertices, when both old pairs are edges and both new pairs are free, the multiset of nonzero lower-triangle weights is unchanged |
| Graph.LegalSwapApplicable | rewire_graph_mex/rewire_graph_cpp.cpp:91-103 | over a symmetric matrix with an exact edge index, the cross test and two free target cells make the four vertices pairwise distinct with both old pairs present, and make e1 != e2 |
| Graph.SwapKeepsEdgesPresent | rewire_graph_mex/rewire_graph_cpp.cpp:104-117 | after a legal swap and the retargeting of entries e1 and e2, every entry names two different vertices with a nonzero weight |
| Graph.SwapKeepsEdgesDistinct | rewire_graph_mex/rewire_graph_cpp.cpp:114-117 | after a legal swap no unordered pair is named by two entries |
| Graph.SwapKeepsNonzeroIndexed | rewire_graph_mex/rewire_graph_cpp.cpp:104-117 | after a legal swap every nonzero cell is named by some entry |
| Graph.SwapPreservesEdgeIndex | rewire_graph_mex/rewire_graph_cpp.cpp:103-117 | a legal swap maps an exact edge index to an exact edge index of the swapped matrix, with the same number of entries |
| Graph.EdgeIndexZeroDiagonal | rewire_graph_mex/rewire_graph_cpp.cpp:49-62 | a matrix whose nonzero pairs the edge vectors index exactly has a zero diagonal |
| Extraction.TriangleCountIsSize | rewire_graph_mex/rewire_graph_cpp.cpp:49-62 | the number of nonzero cells below the diagonal is the size of the multiset of lower-triangle weights |
| Extraction.ScanRow | rewire_graph_mex/rewire_graph_cpp.cpp:51-60 | scanning row i appends, in column order, exactly the nonzero pairs (i, j), j < i, and writes their weight to (i, j) and (j, i) |
| Extraction.ExtractEdges | rewire_graph_mex/rewire_graph_cpp.cpp:49-62 | the output holds each lower-triangle weight at (i, j) and (j, i) and zero elsewhere; the edge vectors list exactly the nonzero pairs (i, j), j < i, in scan order; Ne is their number |
| Extraction.MirroredCopyShape | rewire_graph_mex/rewire_graph_cpp.cpp:53-58 | the extracted output is symmetric with a zero diagonal |
| Extraction.MirroredCopyWeights | rewire_graph_mex/rewire_graph_cpp.cpp:53-58 | the extracted output has the input's multiset of lower-triangle weights |
| Extraction.MirroredCopyDegree | rewire_graph_mex/rewire_graph_cpp.cpp:49-62 | every vertex of the extracted output has its degree in the undirected graph the input's lower triangle describes |
| Extraction.MirroredCopyOfSymmetric | rewire_graph_mex/rewire_graph_cpp.cpp:49-62 | for a symmetric input with a zero diagonal, the extracted output is the input itself |
| Extraction.SymmetricInputDegree | rewire_graph_mex/rewire_graph_cpp.cpp:49-62 | for a symmetric input with a zero diagonal, the degree the lower triangle describes is the degree of the input's own row |
| Extraction.ExtractedEdgeIndex | rewire_graph_mex/rewire_graph_cpp.cpp:49-62 | the extracted edge vectors are an exact index of the nonzero pairs of the extracted output |
| Rewire.UnifRand | rewire_graph_mex/rewire_graph_cpp.cpp:15-17 | rand() / RAND_MAX lies in [0, 1] and is 1 exactly when rand() returns RAND_MAX |
| Rewire.DrawIndexAsWritten | rewire_graph_mex/rewire_graph_cpp.cpp:89-90 | the source's draw `floor(Ne * unifRand())` is at most Ne |
| Rewire.DrawIndexAsWrittenOutOfRange | rewire_graph_mex/rewire_graph_cpp.cpp:89-90 | for Ne > 0 the source's draw equals Ne, one past the last entry, exactly when rand() returns RAND_MAX |
| Rewire.DrawIndexAsWrittenExample | rewire_graph_mex/rewire_graph_cpp.cpp:89-91 | with one edge and rand() == RAND_MAX the source's draw is 1 |
| Rewire.DrawIndex | rewire_graph_mex/rewire_graph_cpp.cpp:89-90 | the corrected draw is below Ne whenever Ne > 0 |
| Rewire.DrawIndexCovers | rewire_graph_mex/rewire_graph_cpp.cpp:89-90 | for Ne <= RAND_MAX + 1, every index below Ne is drawn by some rand() value |
| Rewire.DrawsDiffer | rewire_graph_mex/rewire_graph_cpp.cpp:89-90 | with Ne = 3 and rand() = 1431655765 the source's draw is 2 and the corrected draw is 1 |
| Rewire.Flip | rewire_graph_mex/rewire_graph_cpp.cpp:94 | the integer test 2 r > RAND_MAX holds exactly when unifRand() > 0.5 |
| Rewire.CheckConstraint | rewire_graph_mex/rewire_graph_cpp.cpp:64-78 | the constraint-shape error occurs exactly when a third argument is present and not N x N; the argument-count error occurs exactly when the shape is right and a fourth argument is present; otherwise the constraint is present exactly when a third argument is, and it is that argument's N*N data |
| Rewire.EffectiveRewiresPerEdge | rewire_graph_mex/rewire_graph_cpp.cpp:83 | the per-edge count used is positive: a given 0 becomes the default 4, and any other count is kept |
| Rewire.NumRewires | rewire_graph_mex/rewire_graph_cpp.cpp:81-84 | the target fits in `unsigned long`, is 0 when Ne = 0, and, without overflow, is Ne times the per-edge count (4 when 0 is given) and at least Ne |
| Rewire.TargetPerEdge | rewire_graph_mex/rewire_graph_cpp.cpp:81-84 | without overflow the target is a multiple of Ne whose quotient is the per-edge count |
| Rewire.Oriented | rewire_graph_mex/rewire_graph_cpp.cpp:94-96 | the second edge keeps its unordered pair, as (v3, v4) without a flip and as (v4, v3) with one |
| Rewire.ConstraintsMatch | rewire_graph_mex/rewire_graph_cpp.cpp:97-98 | for a symmetric constraint matrix, the test holds exactly when each new pair (v1, v3) and (v2, v4) has the constraint value of the old pair whose weight it receives, (v1, v2) and (v4, v3) |
| Rewire.Judge | rewire_graph_mex/rewire_graph_cpp.cpp:93-103 | an attempt is rejected for a shared vertex exactly when the cross test fails, always so when e1 == e2; a constraint mismatch needs a constraint |
| Rewire.SwapOutcome | rewire_graph_mex/rewire_graph_cpp.cpp:97-103 | after the cross test: a constraint mismatch occurs exactly when a constraint is present and one of its two equalities fails; acceptance occurs exactly when the constraint test passes (or there is none) and both target cells are zero; without a constraint the swap is refused exactly when a target cell is occupied |
| Rewire.AcceptedIffLegal | rewire_graph_mex/rewire_graph_cpp.cpp:93-103 | an attempt is accepted exactly when the swap it names is legal for the edge index and, with a constraint, the constraint test passes |
| Rewire.SwapKeepsEdgeValues | rewire_graph_mex/rewire_graph_cpp.cpp:97-117 | with a symmetric constraint matrix, a swap that passed the constraint test keeps every entry's constraint value |
| Rewire.AcceptedSwapKeeps | rewire_graph_mex/rewire_graph_cpp.cpp:103-117 | a legal swap keeps the exact edge index, symmetry, every degree, the weight multiset and, for a symmetric constraint, the constraint value of every entry |
| Rewire.Verdict | rewire_graph_mex/rewire_graph_cpp.cpp:123-126 | the call fails exactly when num_attempts == MAX_ITERS, reporting the rewires done, the target and the constraint skips; otherwise it returns the matrix |
| Rewire.Rewiring.constructor | rewire_graph_mex/rewire_graph_cpp.cpp:82-87 | the loop state starts valid, with all three counters at 0 |
| Rewire.Rewiring.SwapCells | rewire_graph_mex/rewire_graph_cpp.cpp:104-113 | the eight writes turn the buffer into `Swapped` of the old buffer |
| Rewire.Rewiring.Attempt | rewire_graph_mex/rewire_graph_cpp.cpp:91-120 | the outcome of one pass is `Judge` of the old state; a rejection changes nothing except the skip count on a constraint mismatch; an acceptance swaps the buffer, retargets e1 and e2 and counts one rewire; the state stays valid and keeps the degrees and weights; one pass uses 2 rand() values, or 3 when the cross test passes |
| Rewire.Rewiring.Constrained | rewire_graph_mex/rewire_graph_cpp.cpp:97-119 | after the cross test, the outcome is `SwapOutcome`: a constraint mismatch increments only the skip counter; otherwise the target-cell test decides, with the same new state as Attempt |
| Rewire.Rewiring.TrySwap | rewire_graph_mex/rewire_graph_cpp.cpp:103-119 | the swap is accepted exactly when both target cells are zero; a rejection changes nothing and an acceptance is the swap, the retargeting and one more rewire, keeping validity, degrees and weights |
| Rewire.Rewiring.Swap | rewire_graph_mex/rewire_graph_cpp.cpp:104-118 | a legal swap's new state is `Swapped` of the buffer with entries e1 and e2 retargeted to (v1, v3) and (v2, v4) and one more rewire; the state stays an exact edge index with every degree, the weights and, for a symmetric constraint, the constraint values of the entries kept |
| Rewire.Rewiring.Run | rewire_graph_mex/rewire_graph_cpp.cpp:87-121 | the loop ends with num_attempts <= MAX_ITERS and actualRewires <= numRewires, with the target met unless the budget ran out; rewires plus skips never exceed the attempts; there are no skips without a constraint; the buffer stays an exact edge index of a symmetric matrix with every degree and the weight multiset kept |
| Rewire.RewireGraph | rewire_graph_mex/rewire_graph_cpp.cpp:20-127 | a non-square input fails with NotSquare and nothing else does; constraint errors pass through; once both checks pass, the only possible failure is MaxItersReached; a success is a symmetric matrix with a zero diagonal, every vertex's input degree (for a symmetric input with a zero diagonal, its degree in the input) and the input's weight multiset; MAX_ITERS reports the target `NumRewires` of the input's edge count and per-edge count, at most that many rewires, and rewires plus skips within MAX_ITERS |

## Left out

- `std::rand` and its global state (lines 15-17) are left out. The draws are an
  input sequence of raw `rand()` values. `rand() / double(RAND_MAX)` is read as
  an exact real quotient, so double rounding is not modelled.
- Rewire.DrawIndex: the engine uses the corrected draw, not the source's
  `floor(Ne * unifRand())`, which can produce the out-of-range index Ne (see
  Findings). The two draws also differ on ordinary values (`DrawsDiffer`), so
  a stream of `rand()` values does not replay the source's choice of edges.
- Rewire.Rewiring.Run: the ensures state the invariants and the exit condition.
  They do not give the final matrix as a function of the random stream.
- Rewire.RewireGraph: like Run, it does not give the result as a function of
  the random stream.
- Rewire.Rewiring.Run and Rewire.RewireGraph require a stream of at least
  3 * MAX_ITERS values, enough for any run. Run also requires a zero target when
  Ne = 0. The source would index empty vectors there, but its target Ne * k is
  then 0, so the loop never runs.
- MEX marshalling is left out: `mxGetData`, `mxGetDimensions`,
  `mxCreateNumericArray`, `mxMalloc` and the `mxIsDouble` type checks at lines
  26-27. The matrices arrive as dimensions and a buffer, and errors are a
  `Result`.
- `RewireGraph` always takes a per-edge count. The source's argument-count
  check at line 22 is commented out, so a call with one argument makes line 27
  read `prhs[1]` past the argument array; that case is not modelled. The
  dimensions beyond the second, which lines 33-36 ignore, are not modelled
  either.
- The output-count check of line 23 (`nlhs > NUMOUT`, "Too many output
  arguments expected.") is left out. The number of outputs the MATLAB caller
  requests is not an input of the model, which always returns one matrix.
- The conversions of the dimensions to `int` (lines 33-34) are not modelled.
  The model does not model `unsigned int` wrap-around of `N*i+j` or of `Ne`.
- Rewire.NumRewires: the modulus 2^64 assumes a 64-bit `unsigned long`, as on
  LP64 Linux and macOS. On LLP64 Windows `unsigned long` is 32 bits and the
  product would wrap modulo 2^32.
- Rewire.RandMax is glibc's 2^31 - 1. MSVC's RAND_MAX is 32767, so there the
  out-of-range draw of Findings fires on one draw in 32768, and `DrawIndexCovers`
  reaches every edge only for Ne <= 32768.
- Rewire.RewireGraph takes the per-edge count after the `double` to
  `unsigned long` cast of line 81, so the cast itself is not modelled.
- The report written to `std::cout` at line 124 is left out. Its three numbers
  are carried in the `MaxItersReached` error instead.
- Weights and constraint values are reals, so IEEE NaN and -0.0 are not
  modelled.
- The test `if (i <= j) continue;` at line 52 can never fire inside `j < i`, so
  the model has no such branch.
- `checkInput` in `helperMEX.h` is not part of this model, because it is MEX
  type and dimension plumbing.
- `test1.cpp`, `test2.cpp` and `addMatrices.cpp` are not part of this model.
  They are floating-point kernels, OpenMP code and a MEX tutorial.
- Both input-shape errors appear as separate `NotSquare` and `ConstraintShape`
  values, because the source raises two different messages.

## Findings

| source | as written | input that shows it | evidently intended | confidence | as-written member | corrected member |
|---|---|---|---|---|---|---|
| rewire_graph_mex/rewire_graph_cpp.cpp:89-90 | `e = floor(Ne * unifRand())` with `unifRand() = rand() / double(RAND_MAX)`, which can equal 1 | Ne = 1 and `rand()` returns RAND_MAX: e1 = 1, and `i_srand[1]` is read past the end of a one-element vector | an index in 0 .. Ne-1 for every draw, for example by scaling with RAND_MAX + 1 | high; not executed | Rewire.DrawIndexAsWrittenOutOfRange | Rewire.DrawIndex |
