/** Edge extraction, the first step of `mexFunction` in rewire_graph_cpp.cpp:
    one scan of the strict lower triangle of the input in row order (i, then
    j < i) that lists every nonzero pair in the edge vectors and writes its
    weight to both cells of the (zero-initialised) output buffer. */
module Extraction {
  import FlatIndex
  import opened Graph

  /** (a, b) comes before (c, d) in the scan: an earlier row, or the same row
      and an earlier column. */
  predicate ScanBefore(a: nat, b: nat, c: nat, d: nat) {
    a < c || (a == c && b < d)
  }

  /** The weight the output holds at (a, b) once the whole scan is done: the
      input's lower-triangle weight of the pair, mirrored above the diagonal. */
  ghost function MirrorValue(graph: seq<real>, n: nat, a: nat, b: nat): real
    requires |graph| == n * n && a < n && b < n
  {
    if b < a then Cell(graph, n, a, b)
    else if a < b then Cell(graph, n, b, a)
    else 0.0
  }

  /** The same, for a scan that has reached (i, j): pairs not yet visited are
      still zero. */
  ghost function PartialMirror(graph: seq<real>, n: nat, i: nat, j: nat, a: nat, b: nat): real
    requires |graph| == n * n && a < n && b < n
  {
    if b < a && ScanBefore(a, b, i, j) then Cell(graph, n, a, b)
    else if a < b && ScanBefore(b, a, i, j) then Cell(graph, n, b, a)
    else 0.0
  }

  /** The output buffer once the scan has reached (i, j). */
  ghost predicate CopyReached(og: seq<real>, graph: seq<real>, n: nat, i: nat, j: nat)
    requires |og| == n * n && |graph| == n * n
  {
    forall a, b :: 0 <= a < n && 0 <= b < n ==> Cell(og, n, a, b) == PartialMirror(graph, n, i, j, a, b)
  }

  /** `out` is the symmetric copy of the lower triangle of `graph`. */
  ghost predicate MirroredCopy(out: seq<real>, graph: seq<real>, n: nat) {
    |out| == n * n && |graph| == n * n &&
    forall a, b :: 0 <= a < n && 0 <= b < n ==> Cell(out, n, a, b) == MirrorValue(graph, n, a, b)
  }

  /** The edge vectors list, in scan order, exactly the nonzero lower-triangle
      pairs (a, b), b < a, that the scan has visited before reaching (i, j). */
  ghost predicate ListsScanned(graph: seq<real>, n: nat, iS: seq<nat>, jS: seq<nat>, i: nat, j: nat)
    requires |graph| == n * n
  {
    |iS| == |jS| &&
    (forall k :: 0 <= k < |iS| ==>
      jS[k] < iS[k] < n && ScanBefore(iS[k], jS[k], i, j) && Cell(graph, n, iS[k], jS[k]) != 0.0) &&
    (forall k, l :: 0 <= k < l < |iS| ==> ScanBefore(iS[k], jS[k], iS[l], jS[l])) &&
    (forall a, b :: 0 <= b < a < n && ScanBefore(a, b, i, j) && Cell(graph, n, a, b) != 0.0 ==>
      exists k :: 0 <= k < |iS| && iS[k] == a && jS[k] == b)
  }

  /** The edge vectors list every nonzero pair below the diagonal, once each, in
      scan order. */
  ghost predicate ListsLowerEdges(graph: seq<real>, n: nat, iS: seq<nat>, jS: seq<nat>)
    requires |graph| == n * n
  {
    ListsScanned(graph, n, iS, jS, n, 0)
  }

  // ---------------------------------------------------------------------------
  // One step of the scan
  // ---------------------------------------------------------------------------

  /** Visiting (i, j): the pair is appended when its weight is nonzero. */
  lemma ListsStep(graph: seq<real>, n: nat, iS: seq<nat>, jS: seq<nat>, i: nat, j: nat)
    requires |graph| == n * n && j < i < n
    requires ListsScanned(graph, n, iS, jS, i, j)
    ensures Cell(graph, n, i, j) != 0.0 ==> ListsScanned(graph, n, iS + [i], jS + [j], i, j + 1)
    ensures Cell(graph, n, i, j) == 0.0 ==> ListsScanned(graph, n, iS, jS, i, j + 1)
  {
    if Cell(graph, n, i, j) != 0.0 {
      var iS', jS' := iS + [i], jS + [j];
      forall a, b | 0 <= b < a < n && ScanBefore(a, b, i, j + 1) && Cell(graph, n, a, b) != 0.0
        ensures exists k :: 0 <= k < |iS'| && iS'[k] == a && jS'[k] == b
      {
        if a == i && b == j {
          assert iS'[|iS|] == a && jS'[|iS|] == b;
        } else {
          var k :| 0 <= k < |iS| && iS[k] == a && jS[k] == b;
          assert iS'[k] == a && jS'[k] == b;
        }
      }
    }
  }

  /** The output after visiting (i, j): both cells of the pair carry its weight. */
  lemma MirrorStep(graph: seq<real>, n: nat, i: nat, j: nat, og: seq<real>)
    requires |graph| == n * n && |og| == n * n && j < i < n
    requires CopyReached(og, graph, n, i, j)
    ensures Cell(graph, n, i, j) != 0.0 ==> CopyReached(PairWrite(og, n, i, j, Cell(graph, n, i, j)), graph, n, i, j + 1)
    ensures Cell(graph, n, i, j) == 0.0 ==> CopyReached(og, graph, n, i, j + 1)
  {
    var w := Cell(graph, n, i, j);
    var og' := if w != 0.0 then PairWrite(og, n, i, j, w) else og;
    forall a, b | 0 <= a < n && 0 <= b < n
      ensures Cell(og', n, a, b) == PartialMirror(graph, n, i, j + 1, a, b)
    {
      PairWriteCell(og, n, i, j, w, a, b);
    }
  }

  /** The end of row i is the start of row i + 1. */
  lemma RowEnd(graph: seq<real>, n: nat, iS: seq<nat>, jS: seq<nat>, i: nat, og: seq<real>, count: nat)
    requires |graph| == n * n && |og| == n * n && i < n
    requires ListsScanned(graph, n, iS, jS, i, i)
    requires CopyReached(og, graph, n, i, i)
    requires count == TriangleCount(graph, n, i) && |iS| == count + RowCount(graph, n, i, i)
    ensures RowsScanned(graph, n, og, iS, jS, i + 1)
  {
  }

  /** Number of nonzero cells in row i, columns 0 .. j-1. */
  ghost function RowCount(graph: seq<real>, n: nat, i: nat, j: nat): nat
    requires |graph| == n * n && i < n && j <= n
  {
    if j == 0 then 0 else RowCount(graph, n, i, j - 1) + if Cell(graph, n, i, j - 1) != 0.0 then 1 else 0
  }

  /** Number of nonzero cells strictly below the diagonal in rows 0 .. i-1. */
  ghost function TriangleCount(graph: seq<real>, n: nat, i: nat): nat
    requires |graph| == n * n && i <= n
  {
    if i == 0 then 0 else TriangleCount(graph, n, i - 1) + RowCount(graph, n, i - 1, i - 1)
  }

  lemma {:induction false} RowCountIsSize(graph: seq<real>, n: nat, i: nat, j: nat)
    requires |graph| == n * n && i < n && j <= n
    ensures |RowWeights(graph, n, i, j)| == RowCount(graph, n, i, j)
  {
    if j > 0 {
      RowCountIsSize(graph, n, i, j - 1);
    }
  }

  lemma {:induction false} TriangleCountIsSize(graph: seq<real>, n: nat, i: nat)
    requires |graph| == n * n && i <= n
    ensures |TriangleWeights(graph, n, i)| == TriangleCount(graph, n, i)
  {
    if i > 0 {
      var k := i - 1;
      var t, r := TriangleWeights(graph, n, k), RowWeights(graph, n, k, k);
      assert |t| == TriangleCount(graph, n, k) by {
        TriangleCountIsSize(graph, n, k);
      }
      assert |r| == RowCount(graph, n, k, k) by {
        RowCountIsSize(graph, n, k, k);
      }
      assert TriangleWeights(graph, n, i) == t + r;
    }
  }

  // ---------------------------------------------------------------------------
  // The scan
  // ---------------------------------------------------------------------------

  /** Lines 49-62: fill the zeroed output `out` and return the edge vectors
      `i_srand`, `j_srand`. */
  method ExtractEdges(graph: seq<real>, n: nat, out: array<real>) returns (iS: seq<nat>, jS: seq<nat>)
    requires |graph| == n * n && out.Length == n * n
    requires forall q :: 0 <= q < out.Length ==> out[q] == 0.0
    modifies out
    ensures MirroredCopy(out[..], graph, n)
    ensures ListsLowerEdges(graph, n, iS, jS)
    ensures |iS| == |LowerWeights(graph, n)|
  {
    iS, jS := [], [];
    ScanStart(graph, n, out[..]);
    var i: nat := 0;
    while i < n
      invariant i <= n && RowsScanned(graph, n, out[..], iS, jS, i)
    {
      ghost var count := |iS|;
      iS, jS := ScanRow(graph, n, out, i, iS, jS);
      RowEnd(graph, n, iS, jS, i, out[..], count);
      i := i + 1;
    }
    ScanComplete(graph, n, out[..], iS, jS);
  }

  /** Before the scan: a zeroed buffer and empty edge vectors. */
  lemma ScanStart(graph: seq<real>, n: nat, og: seq<real>)
    requires |graph| == n * n && |og| == n * n
    requires forall q :: 0 <= q < |og| ==> og[q] == 0.0
    ensures RowsScanned(graph, n, og, [], [], 0)
  {
    forall a, b | 0 <= a < n && 0 <= b < n
      ensures Cell(og, n, a, b) == PartialMirror(graph, n, 0, 0, a, b)
    {
      PosBound(n, a, b);
    }
  }

  /** The state of the scan at the start of row i. */
  ghost predicate RowsScanned(graph: seq<real>, n: nat, og: seq<real>, iS: seq<nat>, jS: seq<nat>, i: nat)
  {
    |graph| == n * n && |og| == n * n && i <= n &&
    ListsScanned(graph, n, iS, jS, i, 0) && CopyReached(og, graph, n, i, 0) && |iS| == TriangleCount(graph, n, i)
  }

  /** Once every row is scanned the partial copy is the whole mirrored copy. */
  lemma ScanComplete(graph: seq<real>, n: nat, og: seq<real>, iS: seq<nat>, jS: seq<nat>)
    requires RowsScanned(graph, n, og, iS, jS, n)
    ensures MirroredCopy(og, graph, n)
    ensures ListsLowerEdges(graph, n, iS, jS)
    ensures |iS| == |LowerWeights(graph, n)|
  {
    forall a, b | 0 <= a < n && 0 <= b < n
      ensures Cell(og, n, a, b) == MirrorValue(graph, n, a, b)
    {
    }
    TriangleCountIsSize(graph, n, n);
  }

  /** The state of the scan of row i once it has reached column j, when row i
      started with `base` listed edges. */
  ghost predicate RowScanning(graph: seq<real>, n: nat, og: seq<real>, iS: seq<nat>, jS: seq<nat>,
                              i: nat, j: nat, base: nat)
  {
    |graph| == n * n && |og| == n * n && j <= i < n &&
    ListsScanned(graph, n, iS, jS, i, j) && CopyReached(og, graph, n, i, j) &&
    |iS| == base + RowCount(graph, n, i, j)
  }

  /** Visiting (i, j): a nonzero pair is appended to the lists and written to
      both of its cells; an empty one changes nothing. */
  lemma Visit(graph: seq<real>, n: nat, og: seq<real>, iS: seq<nat>, jS: seq<nat>, i: nat, j: nat, base: nat)
    requires RowScanning(graph, n, og, iS, jS, i, j, base) && j < i
    ensures Cell(graph, n, i, j) != 0.0 ==>
              RowScanning(graph, n, PairWrite(og, n, i, j, Cell(graph, n, i, j)), iS + [i], jS + [j], i, j + 1, base)
    ensures Cell(graph, n, i, j) == 0.0 ==> RowScanning(graph, n, og, iS, jS, i, j + 1, base)
  {
    ListsStep(graph, n, iS, jS, i, j);
    MirrorStep(graph, n, i, j, og);
  }

  /** The inner loop of lines 51-60: visit (i, 0) .. (i, i-1). */
  method ScanRow(graph: seq<real>, n: nat, out: array<real>, i: nat, iS0: seq<nat>, jS0: seq<nat>)
    returns (iS: seq<nat>, jS: seq<nat>)
    requires |graph| == n * n && out.Length == n * n && i < n
    requires ListsScanned(graph, n, iS0, jS0, i, 0)
    requires CopyReached(out[..], graph, n, i, 0)
    modifies out
    ensures ListsScanned(graph, n, iS, jS, i, i)
    ensures CopyReached(out[..], graph, n, i, i)
    ensures |iS| == |iS0| + RowCount(graph, n, i, i)
  {
    iS, jS := iS0, jS0;
    var j: nat := 0;
    while j < i
      invariant RowScanning(graph, n, out[..], iS, jS, i, j, |iS0|)
      decreases i - j
    {
      ghost var og := out[..];
      Visit(graph, n, og, iS, jS, i, j, |iS0|);
      PosBound(n, i, j);
      PosBound(n, j, i);
      var cWeight := graph[n * i + j];
      if cWeight != 0.0 {
        iS := iS + [i];
        jS := jS + [j];
        out[n * i + j] := cWeight;
        out[n * j + i] := cWeight;
        assert out[..] == PairWrite(og, n, i, j, cWeight);
      }
      j := j + 1;
    }
  }

  // ---------------------------------------------------------------------------
  // What the extracted state satisfies
  // ---------------------------------------------------------------------------

  /** The mirrored copy is symmetric with an empty diagonal. */
  lemma MirroredCopyShape(out: seq<real>, graph: seq<real>, n: nat)
    requires MirroredCopy(out, graph, n)
    ensures Symmetric(out, n) && ZeroDiagonal(out, n)
  {
  }

  /** The copy keeps every input weight below the diagonal, so the multiset of
      edge weights is the input's. */
  lemma MirroredCopyWeights(out: seq<real>, graph: seq<real>, n: nat)
    requires MirroredCopy(out, graph, n)
    ensures LowerWeights(out, n) == LowerWeights(graph, n)
  {
    TriangleWeightsAgree(out, graph, n, n);
  }

  /** The extracted edge vectors are an exact index of the nonzero pairs of the
      copy. */
  lemma ExtractedEdgeIndex(out: seq<real>, graph: seq<real>, n: nat, iS: seq<nat>, jS: seq<nat>)
    requires MirroredCopy(out, graph, n) && ListsLowerEdges(graph, n, iS, jS)
    ensures EdgeIndex(out, n, iS, jS)
  {
    forall k, l | 0 <= k < l < |iS|
      ensures !SamePair(iS[k], jS[k], iS[l], jS[l])
    {
      assert ScanBefore(iS[k], jS[k], iS[l], jS[l]);
    }
    forall a, b | 0 <= a < n && 0 <= b < n && Cell(out, n, a, b) != 0.0
      ensures Named(iS, jS, a, b)
    {
      if b < a {
        var k :| 0 <= k < |iS| && iS[k] == a && jS[k] == b;
        assert SamePair(iS[k], jS[k], a, b);
      } else {
        var k :| 0 <= k < |iS| && iS[k] == b && jS[k] == a;
        assert SamePair(iS[k], jS[k], a, b);
      }
    }
  }

  /** The degree of v in the undirected graph the lower triangle of the input
      describes. */
  ghost function InputDegree(graph: seq<real>, n: nat, v: nat): nat
    requires |graph| == n * n && v < n
  {
    |set j: nat | j < n && MirrorValue(graph, n, v, j) != 0.0|
  }

  /** Every vertex of the mirrored copy has its degree in the input. */
  lemma MirroredCopyDegree(out: seq<real>, graph: seq<real>, n: nat)
    requires MirroredCopy(out, graph, n)
    ensures forall v :: 0 <= v < n ==> Degree(out, n, v) == InputDegree(graph, n, v)
  {
    forall v | 0 <= v < n
      ensures Degree(out, n, v) == InputDegree(graph, n, v)
    {
      assert Neighbours(out, n, v) == set j: nat | j < n && MirrorValue(graph, n, v, j) != 0.0;
    }
  }

  /** For a symmetric input with an empty diagonal the mirrored copy is the
      input itself. */
  lemma MirroredCopyOfSymmetric(out: seq<real>, graph: seq<real>, n: nat)
    requires MirroredCopy(out, graph, n) && Symmetric(graph, n) && ZeroDiagonal(graph, n)
    ensures out == graph
  {
    forall q | 0 <= q < |out|
      ensures out[q] == graph[q]
    {
      var a, b := q / n, q % n;
      assert q == Pos(n, a, b);
      assert a < n by {
        if a >= n {
          FlatIndex.MulLe(n, n, a);
        }
      }
      assert Cell(out, n, a, b) == MirrorValue(graph, n, a, b) == Cell(graph, n, a, b);
    }
  }

  /** For a symmetric input with an empty diagonal, the degree the lower
      triangle describes is the row count of the input itself. */
  lemma SymmetricInputDegree(graph: seq<real>, n: nat)
    requires |graph| == n * n && Symmetric(graph, n) && ZeroDiagonal(graph, n)
    ensures forall v :: 0 <= v < n ==> InputDegree(graph, n, v) == Degree(graph, n, v)
  {
    forall v | 0 <= v < n
      ensures InputDegree(graph, n, v) == Degree(graph, n, v)
    {
      assert (set j: nat | j < n && MirrorValue(graph, n, v, j) != 0.0) == Neighbours(graph, n, v);
    }
  }
}
