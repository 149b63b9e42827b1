/** The weighted undirected graph as the rewiring code stores it: an n-by-n
    matrix of weights in one flat buffer, cell (i, j) at position `N*i+j`, where
    a weight of 0 means "no edge". MATLAB lays matrices out column-major, so
    cell (i, j) here is MATLAB element (j, i): a "row" of this module is a
    MATLAB column. Alongside the buffer, two parallel edge
    vectors `iS`, `jS` name one vertex pair per edge.

    This module states the invariants the rewiring keeps (symmetry, zero
    diagonal, the edge vectors indexing exactly the nonzero pairs, per-vertex
    degree, the multiset of weights) and proves that one double edge swap keeps
    all of them. */
module Graph {
  import FlatIndex

  // ---------------------------------------------------------------------------
  // Cells of the flat buffer
  // ---------------------------------------------------------------------------

  /** Position of cell (i, j) in the flat buffer: `N*i+j`. */
  function Pos(n: nat, i: nat, j: nat): (p: nat) {
    n * i + j
  }

  lemma PosBound(n: nat, i: nat, j: nat)
    requires i < n && j < n
    ensures Pos(n, i, j) < n * n
  {
    FlatIndex.MulLe(n, i, n - 1);
    assert n * (n - 1) == n * n - n;
  }

  /** A position determines its row (the quotient by n) and column (the remainder). */
  lemma PosCoordinates(n: nat, i: nat, j: nat)
    requires j < n
    ensures Pos(n, i, j) / n == i && Pos(n, i, j) % n == j
  {
    FlatIndex.DivModOfIndex(n, j, i);
  }

  lemma PosInjective(n: nat, i: nat, j: nat, a: nat, b: nat)
    requires j < n && b < n
    ensures Pos(n, i, j) == Pos(n, a, b) <==> i == a && j == b
  {
    PosCoordinates(n, i, j);
    PosCoordinates(n, a, b);
  }

  /** The weight stored for the vertex pair (i, j). */
  function Cell(g: seq<real>, n: nat, i: nat, j: nat): (w: real)
    requires |g| == n * n && i < n && j < n
  {
    PosBound(n, i, j);
    g[Pos(n, i, j)]
  }

  /** Writing one position changes exactly the one cell it belongs to. */
  lemma CellUpdate(g: seq<real>, n: nat, a: nat, b: nat, x: real, i: nat, j: nat)
    requires |g| == n * n && a < n && b < n && i < n && j < n
    ensures Pos(n, a, b) < |g|
    ensures Cell(g[Pos(n, a, b) := x], n, i, j) == if i == a && j == b then x else Cell(g, n, i, j)
  {
    PosBound(n, a, b);
    PosBound(n, i, j);
    PosInjective(n, i, j, a, b);
  }

  // ---------------------------------------------------------------------------
  // Invariants of the working graph
  // ---------------------------------------------------------------------------

  ghost predicate Symmetric(g: seq<real>, n: nat)
    requires |g| == n * n
  {
    forall i, j :: 0 <= i < n && 0 <= j < n ==> Cell(g, n, i, j) == Cell(g, n, j, i)
  }

  ghost predicate ZeroDiagonal(g: seq<real>, n: nat)
    requires |g| == n * n
  {
    forall i :: 0 <= i < n ==> Cell(g, n, i, i) == 0.0
  }

  /** (a, b) and (c, d) are the same unordered pair. */
  predicate SamePair(a: nat, b: nat, c: nat, d: nat) {
    (a == c && b == d) || (a == d && b == c)
  }

  /** Every entry of the edge vectors names two different vertices joined by a
      nonzero weight. */
  ghost predicate EdgesPresent(g: seq<real>, n: nat, iS: seq<nat>, jS: seq<nat>)
    requires |g| == n * n && |iS| == |jS|
  {
    forall k :: 0 <= k < |iS| ==>
      iS[k] < n && jS[k] < n && iS[k] != jS[k] && Cell(g, n, iS[k], jS[k]) != 0.0
  }

  /** No unordered pair is named by two entries. */
  ghost predicate EdgesDistinct(iS: seq<nat>, jS: seq<nat>)
    requires |iS| == |jS|
  {
    forall k, l :: 0 <= k < l < |iS| ==> !SamePair(iS[k], jS[k], iS[l], jS[l])
  }

  /** Some entry names the pair {i, j}, in one orientation or the other. */
  ghost predicate Named(iS: seq<nat>, jS: seq<nat>, i: nat, j: nat)
    requires |iS| == |jS|
  {
    exists k :: 0 <= k < |iS| && SamePair(iS[k], jS[k], i, j)
  }

  /** Every nonzero cell is named by some entry. (The trigger keeps this from
      feeding EdgesPresent back into itself.) */
  ghost predicate NonzeroIndexed(g: seq<real>, n: nat, iS: seq<nat>, jS: seq<nat>)
    requires |g| == n * n && |iS| == |jS|
  {
    forall i, j {:trigger Named(iS, jS, i, j)} ::
      0 <= i < n && 0 <= j < n && Cell(g, n, i, j) != 0.0 ==> Named(iS, jS, i, j)
  }

  /** The edge vectors are an exact index of the nonzero vertex pairs: one entry
      per pair, each naming a pair whose weight is nonzero. */
  ghost predicate EdgeIndex(g: seq<real>, n: nat, iS: seq<nat>, jS: seq<nat>) {
    |g| == n * n && |iS| == |jS| &&
    EdgesPresent(g, n, iS, jS) && EdgesDistinct(iS, jS) && NonzeroIndexed(g, n, iS, jS)
  }

  /** An exact edge index leaves no weight on the diagonal. */
  lemma EdgeIndexZeroDiagonal(g: seq<real>, n: nat, iS: seq<nat>, jS: seq<nat>)
    requires EdgeIndex(g, n, iS, jS)
    ensures ZeroDiagonal(g, n)
  {
    forall i | 0 <= i < n
      ensures Cell(g, n, i, i) == 0.0
    {
      assert !Named(iS, jS, i, i);
    }
  }

  // ---------------------------------------------------------------------------
  // Degree and weight multiset
  // ---------------------------------------------------------------------------

  /** Columns of row v holding a nonzero weight. */
  ghost function Neighbours(g: seq<real>, n: nat, v: nat): set<nat>
    requires |g| == n * n && v < n
  {
    set j: nat | j < n && Cell(g, n, v, j) != 0.0
  }

  /** Number of nonzero entries in row v. */
  ghost function Degree(g: seq<real>, n: nat, v: nat): nat
    requires |g| == n * n && v < n
  {
    |Neighbours(g, n, v)|
  }

  function NonzeroSingleton(w: real): (m: multiset<real>) {
    if w != 0.0 then multiset{w} else multiset{}
  }

  /** The nonzero weights of row i in columns 0 .. j-1. */
  ghost function RowWeights(g: seq<real>, n: nat, i: nat, j: nat): multiset<real>
    requires |g| == n * n && i < n && j <= n
  {
    if j == 0 then multiset{} else RowWeights(g, n, i, j - 1) + NonzeroSingleton(Cell(g, n, i, j - 1))
  }

  /** The nonzero weights strictly below the diagonal in rows 0 .. i-1. */
  ghost function TriangleWeights(g: seq<real>, n: nat, i: nat): multiset<real>
    requires |g| == n * n && i <= n
  {
    if i == 0 then multiset{} else TriangleWeights(g, n, i - 1) + RowWeights(g, n, i - 1, i - 1)
  }

  /** The multiset of nonzero weights strictly below the diagonal: one copy of
      each edge's weight in a symmetric matrix. */
  ghost function LowerWeights(g: seq<real>, n: nat): multiset<real>
    requires |g| == n * n
  {
    TriangleWeights(g, n, n)
  }

  ghost function CellIf(cond: bool, w: real): multiset<real> {
    if cond then NonzeroSingleton(w) else multiset{}
  }

  /** g and h hold the same weight in every cell except possibly (a, b). */
  ghost predicate AgreeExcept(g: seq<real>, h: seq<real>, n: nat, a: nat, b: nat)
    requires |g| == n * n && |h| == n * n
  {
    forall c, d :: 0 <= c < n && 0 <= d < n && (c != a || d != b) ==> Cell(g, n, c, d) == Cell(h, n, c, d)
  }

  /** The multiset step shared by the change lemmas below: either the changed
      cell is the one just added (its entries start to count) or it is not (both
      sides grow alike). */
  lemma MultisetStep(a': multiset<real>, a: multiset<real>, l': multiset<real>, l: multiset<real>,
                     e0: multiset<real>, e0': multiset<real>, e1: multiset<real>, e1': multiset<real>,
                     f: multiset<real>, f': multiset<real>)
    requires a' + e0 == a + e0' && l' + f == l + f'
    requires (e0 == multiset{} && e0' == multiset{} && e1 == f && e1' == f') ||
             (f == multiset{} && f' == multiset{} && e1 == e0 && e1' == e0')
    ensures (a' + l') + e1 == (a + l) + e1'
  {
    forall o
      ensures ((a' + l') + e1)[o] == ((a + l) + e1')[o]
    {
      assert (a' + e0)[o] == (a + e0')[o];
      assert (l' + f)[o] == (l + f')[o];
    }
  }

  /** Changing cell (a, b) trades its old weight for the new one in the row
      prefix that contains it. */
  lemma {:induction false} RowWeightsChange(g: seq<real>, h: seq<real>, n: nat, a: nat, b: nat, i: nat, j: nat)
    requires |g| == n * n && |h| == n * n && a < n && b < n && i < n && j <= n
    requires AgreeExcept(g, h, n, a, b)
    ensures RowWeights(h, n, i, j) + CellIf(i == a && b < j, Cell(g, n, a, b))
         == RowWeights(g, n, i, j) + CellIf(i == a && b < j, Cell(h, n, a, b))
  {
    if j > 0 {
      var k := j - 1;
      var ra', ra := RowWeights(h, n, i, k), RowWeights(g, n, i, k);
      var e0, e0' := CellIf(i == a && b < k, Cell(g, n, a, b)), CellIf(i == a && b < k, Cell(h, n, a, b));
      assert ra' + e0 == ra + e0' by { RowWeightsChange(g, h, n, a, b, i, k); }
      var hit := i == a && b == j - 1;
      var l', l := NonzeroSingleton(Cell(h, n, i, j - 1)), NonzeroSingleton(Cell(g, n, i, j - 1));
      var f, f' := CellIf(hit, Cell(g, n, a, b)), CellIf(hit, Cell(h, n, a, b));
      assert l' + f == l + f' by {
        if hit {
          assert l' == f' && l == f;
        } else {
          assert Cell(h, n, i, j - 1) == Cell(g, n, i, j - 1);
        }
      }
      MultisetStep(ra', ra, l', l, e0, e0',
                   CellIf(i == a && b < j, Cell(g, n, a, b)), CellIf(i == a && b < j, Cell(h, n, a, b)),
                   f, f');
    }
  }

  /** Changing a cell (a, b) below the diagonal trades its old weight for the new
      one in every triangle of rows that contains row a. */
  lemma {:induction false} TriangleWeightsChange(g: seq<real>, h: seq<real>, n: nat, a: nat, b: nat, i: nat)
    requires |g| == n * n && |h| == n * n && b < a < n && i <= n
    requires AgreeExcept(g, h, n, a, b)
    ensures TriangleWeights(h, n, i) + CellIf(a < i, Cell(g, n, a, b))
         == TriangleWeights(g, n, i) + CellIf(a < i, Cell(h, n, a, b))
  {
    if i > 0 {
      var k := i - 1;
      var w, x := Cell(g, n, a, b), Cell(h, n, a, b);
      var ta', ta := TriangleWeights(h, n, k), TriangleWeights(g, n, k);
      var ra', ra := RowWeights(h, n, k, k), RowWeights(g, n, k, k);
      assert ta' + CellIf(a < k, w) == ta + CellIf(a < k, x) by {
        TriangleWeightsChange(g, h, n, a, b, k);
      }
      assert ra' + CellIf(k == a && b < k, w) == ra + CellIf(k == a && b < k, x) by {
        RowWeightsChange(g, h, n, a, b, k, k);
      }
      TriangleStep(ta', ta, ra', ra, a, b, i, w, x);
    }
  }

  /** The multiset step of TriangleWeightsChange, on the four multisets alone. */
  lemma TriangleStep(ta': multiset<real>, ta: multiset<real>, ra': multiset<real>, ra: multiset<real>,
                     a: nat, b: nat, i: nat, w: real, x: real)
    requires b < a && i > 0
    requires ta' + CellIf(a < i - 1, w) == ta + CellIf(a < i - 1, x)
    requires ra' + CellIf(i - 1 == a && b < i - 1, w) == ra + CellIf(i - 1 == a && b < i - 1, x)
    ensures (ta' + ra') + CellIf(a < i, w) == (ta + ra) + CellIf(a < i, x)
  {
    var hit := i - 1 == a && b < i - 1;
    RowBoundary(a, b, i, w, x);
    MultisetStep(ta', ta, ra', ra, CellIf(a < i - 1, w), CellIf(a < i - 1, x),
                 CellIf(a < i, w), CellIf(a < i, x), CellIf(hit, w), CellIf(hit, x));
  }

  /** Row i - 1 is the new row of the triangle: it holds the changed cell
      exactly when a == i - 1. */
  lemma RowBoundary(a: nat, b: nat, i: nat, w: real, x: real)
    requires b < a && i > 0
    ensures var hit := i - 1 == a && b < i - 1;
            (CellIf(a < i - 1, w) == multiset{} && CellIf(a < i - 1, x) == multiset{} &&
             CellIf(a < i, w) == CellIf(hit, w) && CellIf(a < i, x) == CellIf(hit, x)) ||
            (CellIf(hit, w) == multiset{} && CellIf(hit, x) == multiset{} &&
             CellIf(a < i, w) == CellIf(a < i - 1, w) && CellIf(a < i, x) == CellIf(a < i - 1, x))
  {
  }

  lemma {:induction false} RowWeightsAgree(g: seq<real>, h: seq<real>, n: nat, i: nat, j: nat)
    requires |g| == n * n && |h| == n * n && i < n && j <= n
    requires forall c :: 0 <= c < j ==> Cell(g, n, i, c) == Cell(h, n, i, c)
    ensures RowWeights(g, n, i, j) == RowWeights(h, n, i, j)
  {
    if j > 0 {
      RowWeightsAgree(g, h, n, i, j - 1);
    }
  }

  /** The lower-triangle weights depend only on the cells below the diagonal. */
  lemma {:induction false} TriangleWeightsAgree(g: seq<real>, h: seq<real>, n: nat, i: nat)
    requires |g| == n * n && |h| == n * n && i <= n
    requires forall c, d :: 0 <= d < c < n ==> Cell(g, n, c, d) == Cell(h, n, c, d)
    ensures TriangleWeights(g, n, i) == TriangleWeights(h, n, i)
  {
    if i > 0 {
      var k := i - 1;
      assert TriangleWeights(g, n, k) == TriangleWeights(h, n, k) by {
        TriangleWeightsAgree(g, h, n, k);
      }
      assert RowWeights(g, n, k, k) == RowWeights(h, n, k, k) by {
        RowWeightsAgree(g, h, n, k, k);
      }
    }
  }

  /** Changing one cell trades its weight in the lower-triangle multiset when the
      cell lies below the diagonal, and changes nothing otherwise. */
  lemma CellChangeWeights(g: seq<real>, h: seq<real>, n: nat, a: nat, b: nat)
    requires |g| == n * n && |h| == n * n && a < n && b < n
    requires AgreeExcept(g, h, n, a, b)
    ensures LowerWeights(h, n) + CellIf(b < a, Cell(g, n, a, b)) == LowerWeights(g, n) + CellIf(b < a, Cell(h, n, a, b))
  {
    if b < a {
      TriangleWeightsChange(g, h, n, a, b, n);
    } else {
      TriangleWeightsAgree(g, h, n, n);
    }
  }

  /** Both cells of the unordered pair {a, b} set to x; this is how the source
      writes every weight. */
  function PairWrite(g: seq<real>, n: nat, a: nat, b: nat, x: real): (h: seq<real>)
    requires |g| == n * n && a < n && b < n
    ensures |h| == |g|
  {
    PosBound(n, a, b);
    PosBound(n, b, a);
    g[Pos(n, a, b) := x][Pos(n, b, a) := x]
  }

  lemma PairWriteCell(g: seq<real>, n: nat, a: nat, b: nat, x: real, i: nat, j: nat)
    requires |g| == n * n && a < n && b < n && i < n && j < n
    ensures Cell(PairWrite(g, n, a, b, x), n, i, j) == if SamePair(i, j, a, b) then x else Cell(g, n, i, j)
  {
    PosBound(n, a, b);
    CellUpdate(g, n, a, b, x, i, j);
    CellUpdate(g[Pos(n, a, b) := x], n, b, a, x, i, j);
  }

  /** Rewriting a symmetric pair trades its old weight for the new one in the
      lower-triangle multiset. */
  lemma PairWriteWeights(g: seq<real>, n: nat, a: nat, b: nat, x: real)
    requires |g| == n * n && a < n && b < n && a != b
    requires Cell(g, n, a, b) == Cell(g, n, b, a)
    ensures LowerWeights(PairWrite(g, n, a, b, x), n) + NonzeroSingleton(Cell(g, n, a, b))
         == LowerWeights(g, n) + NonzeroSingleton(x)
  {
    PosBound(n, a, b);
    PosBound(n, b, a);
    var w := Cell(g, n, a, b);
    var g1 := g[Pos(n, a, b) := x];
    var g2 := g1[Pos(n, b, a) := x];
    assert g2 == PairWrite(g, n, a, b, x);
    forall c, d | 0 <= c < n && 0 <= d < n
      ensures Cell(g1, n, c, d) == if c == a && d == b then x else Cell(g, n, c, d)
      ensures Cell(g2, n, c, d) == if c == b && d == a then x else Cell(g1, n, c, d)
    {
      CellUpdate(g, n, a, b, x, c, d);
      CellUpdate(g1, n, b, a, x, c, d);
    }
    CellChangeWeights(g, g1, n, a, b);
    CellChangeWeights(g1, g2, n, b, a);
    var e1, e1' := CellIf(b < a, w), CellIf(b < a, x);
    var e2, e2' := CellIf(a < b, w), CellIf(a < b, x);
    assert LowerWeights(g1, n) + e1 == LowerWeights(g, n) + e1';
    assert LowerWeights(g2, n) + e2 == LowerWeights(g1, n) + e2';
    forall o
      ensures (LowerWeights(g2, n) + NonzeroSingleton(w))[o] == (LowerWeights(g, n) + NonzeroSingleton(x))[o]
    {
      assert (LowerWeights(g1, n) + e1)[o] == (LowerWeights(g, n) + e1')[o];
      assert (LowerWeights(g2, n) + e2)[o] == (LowerWeights(g1, n) + e2')[o];
      if b < a {
        assert e2[o] == 0 && e2'[o] == 0;
      } else {
        assert e1[o] == 0 && e1'[o] == 0;
      }
    }
  }

  // ---------------------------------------------------------------------------
  // The double edge swap
  // ---------------------------------------------------------------------------

  predicate Distinct4(v1: nat, v2: nat, v3: nat, v4: nat) {
    v1 != v2 && v1 != v3 && v1 != v4 && v2 != v3 && v2 != v4 && v3 != v4
  }

  /** The eight positions the swap writes, in the order it writes them. */
  function Touched(n: nat, v1: nat, v2: nat, v3: nat, v4: nat): seq<nat> {
    [Pos(n, v1, v2), Pos(n, v3, v4), Pos(n, v2, v1), Pos(n, v4, v3),
     Pos(n, v1, v3), Pos(n, v2, v4), Pos(n, v3, v1), Pos(n, v4, v2)]
  }

  /** Buffer position q is none of the eight positions a swap writes. */
  predicate Untouched(n: nat, v1: nat, v2: nat, v3: nat, v4: nat, q: nat) {
    q != Pos(n, v1, v2) && q != Pos(n, v3, v4) && q != Pos(n, v2, v1) && q != Pos(n, v4, v3) &&
    q != Pos(n, v1, v3) && q != Pos(n, v2, v4) && q != Pos(n, v3, v1) && q != Pos(n, v4, v2)
  }

  /** The swap of edges (v1, v2) and (v3, v4) into (v1, v3) and (v2, v4), as the
      eight writes of the source in their order: the old pairs are cleared, and
      the weight of (v1, v2) moves to (v1, v3), that of (v4, v3) to (v2, v4).
      No other position of the buffer changes, whether or not the vertices are
      distinct. */
  function Swapped(g: seq<real>, n: nat, v1: nat, v2: nat, v3: nat, v4: nat): (h: seq<real>)
    requires |g| == n * n && v1 < n && v2 < n && v3 < n && v4 < n
    ensures |h| == |g|
    ensures forall q :: 0 <= q < |g| && Untouched(n, v1, v2, v3, v4, q) ==> h[q] == g[q]
  {
    var w12 := Cell(g, n, v1, v2);
    var w34 := Cell(g, n, v4, v3);
    PosBound(n, v1, v2); PosBound(n, v3, v4); PosBound(n, v2, v1); PosBound(n, v4, v3);
    PosBound(n, v1, v3); PosBound(n, v2, v4); PosBound(n, v3, v1); PosBound(n, v4, v2);
    g[Pos(n, v1, v2) := 0.0][Pos(n, v3, v4) := 0.0][Pos(n, v2, v1) := 0.0][Pos(n, v4, v3) := 0.0]
     [Pos(n, v1, v3) := w12][Pos(n, v2, v4) := w34][Pos(n, v3, v1) := w12][Pos(n, v4, v2) := w34]
  }

  /** The value a cell holds after the swap, stated per vertex pair. */
  ghost function SwapValue(g: seq<real>, n: nat, v1: nat, v2: nat, v3: nat, v4: nat, i: nat, j: nat): real
    requires |g| == n * n && v1 < n && v2 < n && v3 < n && v4 < n && i < n && j < n
  {
    if SamePair(i, j, v1, v3) then Cell(g, n, v1, v2)
    else if SamePair(i, j, v2, v4) then Cell(g, n, v4, v3)
    else if SamePair(i, j, v1, v2) || SamePair(i, j, v3, v4) then 0.0
    else Cell(g, n, i, j)
  }

  /** With four distinct vertices the eight written positions are distinct, so
      no write of the swap overwrites another. */
  lemma TouchedDistinct(n: nat, v1: nat, v2: nat, v3: nat, v4: nat)
    requires v1 < n && v2 < n && v3 < n && v4 < n && Distinct4(v1, v2, v3, v4)
    ensures var t := Touched(n, v1, v2, v3, v4);
            forall k, l :: 0 <= k < l < |t| ==> t[k] != t[l]
  {
    var rows := [v1, v3, v2, v4, v1, v2, v3, v4];
    var cols := [v2, v4, v1, v3, v3, v4, v1, v2];
    var t := Touched(n, v1, v2, v3, v4);
    forall k, l | 0 <= k < l < 8
      ensures t[k] != t[l]
    {
      assert t[k] == Pos(n, rows[k], cols[k]) && t[l] == Pos(n, rows[l], cols[l]);
      PosInjective(n, rows[k], cols[k], rows[l], cols[l]);
    }
  }

  /** Every cell after the swap, by vertex pair. */
  lemma SwappedCell(g: seq<real>, n: nat, v1: nat, v2: nat, v3: nat, v4: nat, i: nat, j: nat)
    requires |g| == n * n && v1 < n && v2 < n && v3 < n && v4 < n && i < n && j < n
    requires Distinct4(v1, v2, v3, v4)
    ensures Cell(Swapped(g, n, v1, v2, v3, v4), n, i, j) == SwapValue(g, n, v1, v2, v3, v4, i, j)
  {
    var w12 := Cell(g, n, v1, v2);
    var w34 := Cell(g, n, v4, v3);
    PosBound(n, v1, v2); PosBound(n, v3, v4); PosBound(n, v2, v1); PosBound(n, v4, v3);
    PosBound(n, v1, v3); PosBound(n, v2, v4); PosBound(n, v3, v1); PosBound(n, v4, v2);
    var g1 := g[Pos(n, v1, v2) := 0.0];
    var g2 := g1[Pos(n, v3, v4) := 0.0];
    var g3 := g2[Pos(n, v2, v1) := 0.0];
    var g4 := g3[Pos(n, v4, v3) := 0.0];
    var g5 := g4[Pos(n, v1, v3) := w12];
    var g6 := g5[Pos(n, v2, v4) := w34];
    var g7 := g6[Pos(n, v3, v1) := w12];
    var g8 := g7[Pos(n, v4, v2) := w34];
    assert g8 == Swapped(g, n, v1, v2, v3, v4);
    CellUpdate(g, n, v1, v2, 0.0, i, j);
    CellUpdate(g1, n, v3, v4, 0.0, i, j);
    CellUpdate(g2, n, v2, v1, 0.0, i, j);
    CellUpdate(g3, n, v4, v3, 0.0, i, j);
    CellUpdate(g4, n, v1, v3, w12, i, j);
    CellUpdate(g5, n, v2, v4, w34, i, j);
    CellUpdate(g6, n, v3, v1, w12, i, j);
    CellUpdate(g7, n, v4, v2, w34, i, j);
  }

  lemma SwappedCells(g: seq<real>, n: nat, v1: nat, v2: nat, v3: nat, v4: nat)
    requires |g| == n * n && v1 < n && v2 < n && v3 < n && v4 < n
    requires Distinct4(v1, v2, v3, v4)
    ensures forall i, j :: 0 <= i < n && 0 <= j < n ==>
      Cell(Swapped(g, n, v1, v2, v3, v4), n, i, j) == SwapValue(g, n, v1, v2, v3, v4, i, j)
  {
    forall i, j | 0 <= i < n && 0 <= j < n
      ensures Cell(Swapped(g, n, v1, v2, v3, v4), n, i, j) == SwapValue(g, n, v1, v2, v3, v4, i, j)
    {
      SwappedCell(g, n, v1, v2, v3, v4, i, j);
    }
  }

  /** What the source checks before it swaps, on a symmetric matrix: both old
      pairs are edges, both new pairs are free, and the four vertices are
      distinct. */
  ghost predicate SwapApplicable(g: seq<real>, n: nat, v1: nat, v2: nat, v3: nat, v4: nat) {
    |g| == n * n && v1 < n && v2 < n && v3 < n && v4 < n &&
    Symmetric(g, n) && Distinct4(v1, v2, v3, v4) &&
    Cell(g, n, v1, v2) != 0.0 && Cell(g, n, v3, v4) != 0.0 &&
    Cell(g, n, v1, v3) == 0.0 && Cell(g, n, v2, v4) == 0.0
  }

  /** The swap keeps the matrix symmetric. */
  lemma SwapPreservesSymmetry(g: seq<real>, n: nat, v1: nat, v2: nat, v3: nat, v4: nat)
    requires |g| == n * n && v1 < n && v2 < n && v3 < n && v4 < n
    requires Symmetric(g, n) && Distinct4(v1, v2, v3, v4)
    ensures Symmetric(Swapped(g, n, v1, v2, v3, v4), n)
  {
    SwappedCells(g, n, v1, v2, v3, v4);
  }

  /** The swap writes no diagonal cell. */
  lemma SwapPreservesZeroDiagonal(g: seq<real>, n: nat, v1: nat, v2: nat, v3: nat, v4: nat)
    requires |g| == n * n && v1 < n && v2 < n && v3 < n && v4 < n
    requires ZeroDiagonal(g, n) && Distinct4(v1, v2, v3, v4)
    ensures ZeroDiagonal(Swapped(g, n, v1, v2, v3, v4), n)
  {
    SwappedCells(g, n, v1, v2, v3, v4);
  }

  /** A row that loses neighbour `lost` and gains neighbour `gained` keeps its degree. */
  lemma ExchangeKeepsDegree(g: seq<real>, h: seq<real>, n: nat, v: nat, lost: nat, gained: nat)
    requires |g| == n * n && |h| == n * n && v < n && lost < n && gained < n
    requires Cell(g, n, v, lost) != 0.0 && Cell(g, n, v, gained) == 0.0
    requires forall j :: 0 <= j < n ==>
      (Cell(h, n, v, j) != 0.0 <==> j == gained || (j != lost && Cell(g, n, v, j) != 0.0))
    ensures Degree(h, n, v) == Degree(g, n, v)
  {
    var s := Neighbours(g, n, v);
    assert Neighbours(h, n, v) == (s - {lost}) + {gained};
    assert s == (s - {lost}) + {lost};
  }

  /** The swap keeps the degree of every vertex: v1 trades v2 for v3, v2 trades
      v1 for v4, v3 trades v4 for v1, v4 trades v3 for v2, and every other row is
      untouched. */
  lemma SwapPreservesDegree(g: seq<real>, n: nat, v1: nat, v2: nat, v3: nat, v4: nat)
    requires SwapApplicable(g, n, v1, v2, v3, v4)
    ensures forall v :: 0 <= v < n ==> Degree(Swapped(g, n, v1, v2, v3, v4), n, v) == Degree(g, n, v)
  {
    var h := Swapped(g, n, v1, v2, v3, v4);
    SwappedCells(g, n, v1, v2, v3, v4);
    forall v | 0 <= v < n
      ensures Degree(h, n, v) == Degree(g, n, v)
    {
      if v == v1 {
        ExchangeKeepsDegree(g, h, n, v, v2, v3);
      } else if v == v2 {
        ExchangeKeepsDegree(g, h, n, v, v1, v4);
      } else if v == v3 {
        ExchangeKeepsDegree(g, h, n, v, v4, v1);
      } else if v == v4 {
        ExchangeKeepsDegree(g, h, n, v, v3, v2);
      } else {
        assert Neighbours(h, n, v) == Neighbours(g, n, v);
      }
    }
  }

  /** The eight writes of the swap are the four pair writes clear {v1, v2},
      clear {v3, v4}, set {v1, v3}, set {v2, v4}. */
  lemma SwappedAsPairWrites(g: seq<real>, n: nat, v1: nat, v2: nat, v3: nat, v4: nat)
    requires |g| == n * n && v1 < n && v2 < n && v3 < n && v4 < n
    requires Distinct4(v1, v2, v3, v4)
    ensures Swapped(g, n, v1, v2, v3, v4)
         == PairWrite(PairWrite(PairWrite(PairWrite(g, n, v1, v2, 0.0), n, v3, v4, 0.0),
                                n, v1, v3, Cell(g, n, v1, v2)), n, v2, v4, Cell(g, n, v4, v3))
  {
    var w12 := Cell(g, n, v1, v2);
    var w34 := Cell(g, n, v4, v3);
    var h1 := PairWrite(g, n, v1, v2, 0.0);
    var h2 := PairWrite(h1, n, v3, v4, 0.0);
    var h3 := PairWrite(h2, n, v1, v3, w12);
    var h4 := PairWrite(h3, n, v2, v4, w34);
    var s := Swapped(g, n, v1, v2, v3, v4);
    forall i, j | 0 <= i < n && 0 <= j < n
      ensures Cell(s, n, i, j) == Cell(h4, n, i, j)
    {
      SwappedCell(g, n, v1, v2, v3, v4, i, j);
      PairWriteCell(g, n, v1, v2, 0.0, i, j);
      PairWriteCell(h1, n, v3, v4, 0.0, i, j);
      PairWriteCell(h2, n, v1, v3, w12, i, j);
      PairWriteCell(h3, n, v2, v4, w34, i, j);
    }
    CellsDetermineMatrix(s, h4, n);
  }

  /** Two buffers of the same matrix shape that agree on every cell are equal. */
  lemma CellsDetermineMatrix(g: seq<real>, h: seq<real>, n: nat)
    requires |g| == n * n && |h| == n * n
    requires forall i, j :: 0 <= i < n && 0 <= j < n ==> Cell(g, n, i, j) == Cell(h, n, i, j)
    ensures g == h
  {
    forall q | 0 <= q < |g|
      ensures g[q] == h[q]
    {
      var i, j := q / n, q % n;
      FlatIndex.MulCancelLt(n, i, n);
      assert Pos(n, i, j) == q;
      assert Cell(g, n, i, j) == Cell(h, n, i, j);
    }
  }

  /** The swap relocates the two weights without changing any: the multiset of
      lower-triangle weights is the same afterwards. */
  lemma SwapPreservesLowerWeights(g: seq<real>, n: nat, v1: nat, v2: nat, v3: nat, v4: nat)
    requires SwapApplicable(g, n, v1, v2, v3, v4)
    ensures LowerWeights(Swapped(g, n, v1, v2, v3, v4), n) == LowerWeights(g, n)
  {
    var w12 := Cell(g, n, v1, v2);
    var w34 := Cell(g, n, v4, v3);
    var h1 := PairWrite(g, n, v1, v2, 0.0);
    var h2 := PairWrite(h1, n, v3, v4, 0.0);
    var h3 := PairWrite(h2, n, v1, v3, w12);
    var h4 := PairWrite(h3, n, v2, v4, w34);
    SwappedAsPairWrites(g, n, v1, v2, v3, v4);
    PairWriteWeights(g, n, v1, v2, 0.0);
    PairWriteCell(g, n, v1, v2, 0.0, v3, v4);
    PairWriteCell(g, n, v1, v2, 0.0, v4, v3);
    PairWriteWeights(h1, n, v3, v4, 0.0);
    PairWriteCell(h1, n, v3, v4, 0.0, v1, v3);
    PairWriteCell(h1, n, v3, v4, 0.0, v3, v1);
    PairWriteCell(g, n, v1, v2, 0.0, v1, v3);
    PairWriteCell(g, n, v1, v2, 0.0, v3, v1);
    PairWriteWeights(h2, n, v1, v3, w12);
    PairWriteCell(h2, n, v1, v3, w12, v2, v4);
    PairWriteCell(h2, n, v1, v3, w12, v4, v2);
    PairWriteCell(h1, n, v3, v4, 0.0, v2, v4);
    PairWriteCell(h1, n, v3, v4, 0.0, v4, v2);
    PairWriteCell(g, n, v1, v2, 0.0, v2, v4);
    PairWriteCell(g, n, v1, v2, 0.0, v4, v2);
    PairWriteWeights(h3, n, v2, v4, w34);
    var z := NonzeroSingleton(0.0);
    assert z == multiset{};
    forall o
      ensures LowerWeights(h4, n)[o] == LowerWeights(g, n)[o]
    {
      assert (LowerWeights(h1, n) + NonzeroSingleton(w12))[o] == (LowerWeights(g, n) + z)[o];
      assert (LowerWeights(h2, n) + NonzeroSingleton(w34))[o] == (LowerWeights(h1, n) + z)[o];
      assert (LowerWeights(h3, n) + z)[o] == (LowerWeights(h2, n) + NonzeroSingleton(w12))[o];
      assert (LowerWeights(h4, n) + z)[o] == (LowerWeights(h3, n) + NonzeroSingleton(w34))[o];
    }
  }

  // ---------------------------------------------------------------------------
  // The swap and the edge index
  // ---------------------------------------------------------------------------

  /** The test at line 93 of the source: no vertex of edge e1 is a vertex of e2. */
  predicate CrossDistinct(v1: nat, v2: nat, v3: nat, v4: nat): (b: bool)
    ensures b <==> {v1, v2} !! {v3, v4}
  {
    v1 != v3 && v1 != v4 && v2 != v4 && v2 != v3
  }

  /** A swap the source accepts: (v1, v2) is entry e1 as stored, (v3, v4) is
      entry e2 in either orientation, the cross test passed and both new pairs
      are free. */
  ghost predicate SwapLegal(g: seq<real>, n: nat, iS: seq<nat>, jS: seq<nat>,
                            e1: nat, e2: nat, v1: nat, v2: nat, v3: nat, v4: nat) {
    EdgeIndex(g, n, iS, jS) && Symmetric(g, n) &&
    e1 < |iS| && e2 < |iS| &&
    v1 == iS[e1] && v2 == jS[e1] && SamePair(v3, v4, iS[e2], jS[e2]) &&
    CrossDistinct(v1, v2, v3, v4) &&
    Cell(g, n, v1, v3) == 0.0 && Cell(g, n, v2, v4) == 0.0
  }

  /** Given the edge index, the cross test makes all four vertices distinct (the
      index rules out v1 == v2 and v3 == v4), and the two drawn entries differ. */
  lemma LegalSwapApplicable(g: seq<real>, n: nat, iS: seq<nat>, jS: seq<nat>,
                            e1: nat, e2: nat, v1: nat, v2: nat, v3: nat, v4: nat)
    requires SwapLegal(g, n, iS, jS, e1, e2, v1, v2, v3, v4)
    ensures SwapApplicable(g, n, v1, v2, v3, v4)
    ensures e1 != e2
  {
  }

  /** The edge vectors after the swap: entry e1 becomes (v1, v3), entry e2 (v2, v4). */
  function Retarget(s: seq<nat>, e1: nat, e2: nat, x1: nat, x2: nat): (r: seq<nat>)
    requires e1 < |s| && e2 < |s|
    ensures |r| == |s|
    ensures r[e2] == x2 && (e1 != e2 ==> r[e1] == x1)
    ensures forall k :: 0 <= k < |s| && k != e1 && k != e2 ==> r[k] == s[k]
  {
    s[e1 := x1][e2 := x2]
  }

  lemma SwapKeepsEdgesPresent(g: seq<real>, n: nat, iS: seq<nat>, jS: seq<nat>,
                              e1: nat, e2: nat, v1: nat, v2: nat, v3: nat, v4: nat)
    requires SwapLegal(g, n, iS, jS, e1, e2, v1, v2, v3, v4)
    ensures EdgesPresent(Swapped(g, n, v1, v2, v3, v4), n,
                         Retarget(iS, e1, e2, v1, v2), Retarget(jS, e1, e2, v3, v4))
  {
    var h := Swapped(g, n, v1, v2, v3, v4);
    var iS', jS' := Retarget(iS, e1, e2, v1, v2), Retarget(jS, e1, e2, v3, v4);
    forall k | 0 <= k < |iS'|
      ensures iS'[k] < n && jS'[k] < n && iS'[k] != jS'[k] && Cell(h, n, iS'[k], jS'[k]) != 0.0
    {
      RetargetedEntryPresent(g, n, iS, jS, e1, e2, v1, v2, v3, v4, k);
    }
  }

  /** Entry k after the swap names an edge: a retargeted entry names a new pair,
      which now carries the moved weight; any other entry names an old pair that
      the swap did not clear, because it is neither {v1, v2} nor {v3, v4}. */
  lemma RetargetedEntryPresent(g: seq<real>, n: nat, iS: seq<nat>, jS: seq<nat>,
                               e1: nat, e2: nat, v1: nat, v2: nat, v3: nat, v4: nat, k: nat)
    requires SwapLegal(g, n, iS, jS, e1, e2, v1, v2, v3, v4)
    requires k < |iS|
    ensures var iS', jS' := Retarget(iS, e1, e2, v1, v2), Retarget(jS, e1, e2, v3, v4);
            iS'[k] < n && jS'[k] < n && iS'[k] != jS'[k] &&
            Cell(Swapped(g, n, v1, v2, v3, v4), n, iS'[k], jS'[k]) != 0.0
  {
    LegalSwapApplicable(g, n, iS, jS, e1, e2, v1, v2, v3, v4);
    var iS', jS' := Retarget(iS, e1, e2, v1, v2), Retarget(jS, e1, e2, v3, v4);
    assert iS'[k] < n && jS'[k] < n;
    SwappedCell(g, n, v1, v2, v3, v4, iS'[k], jS'[k]);
    if k != e1 && k != e2 {
      var a, b := iS[k], jS[k];
      assert !SamePair(a, b, v1, v2) by { assert !SamePair(iS[k], jS[k], iS[e1], jS[e1]); }
      assert !SamePair(a, b, v3, v4) by { assert !SamePair(iS[k], jS[k], iS[e2], jS[e2]); }
    }
  }

  /** No entry of an edge index names a pair whose cell is empty. */
  lemma FreePairNotNamed(g: seq<real>, n: nat, iS: seq<nat>, jS: seq<nat>, a: nat, b: nat, m: nat)
    requires EdgeIndex(g, n, iS, jS) && Symmetric(g, n)
    requires a < n && b < n && Cell(g, n, a, b) == 0.0 && m < |iS|
    ensures !SamePair(iS[m], jS[m], a, b)
  {
    assert Cell(g, n, iS[m], jS[m]) != 0.0;
  }

  lemma SwapKeepsEdgesDistinct(g: seq<real>, n: nat, iS: seq<nat>, jS: seq<nat>,
                               e1: nat, e2: nat, v1: nat, v2: nat, v3: nat, v4: nat)
    requires SwapLegal(g, n, iS, jS, e1, e2, v1, v2, v3, v4)
    ensures EdgesDistinct(Retarget(iS, e1, e2, v1, v2), Retarget(jS, e1, e2, v3, v4))
  {
    var iS', jS' := Retarget(iS, e1, e2, v1, v2), Retarget(jS, e1, e2, v3, v4);
    forall k, l | 0 <= k < l < |iS'|
      ensures !SamePair(iS'[k], jS'[k], iS'[l], jS'[l])
    {
      RetargetedEntriesDiffer(g, n, iS, jS, e1, e2, v1, v2, v3, v4, k, l);
    }
  }

  /** Entries k < l after the swap name different pairs: untouched entries
      differ as before, an untouched entry cannot name a free pair, and the two
      new pairs {v1, v3}, {v2, v4} differ because the four vertices do. */
  lemma RetargetedEntriesDiffer(g: seq<real>, n: nat, iS: seq<nat>, jS: seq<nat>,
                                e1: nat, e2: nat, v1: nat, v2: nat, v3: nat, v4: nat, k: nat, l: nat)
    requires SwapLegal(g, n, iS, jS, e1, e2, v1, v2, v3, v4)
    requires k < l < |iS|
    ensures var iS', jS' := Retarget(iS, e1, e2, v1, v2), Retarget(jS, e1, e2, v3, v4);
            !SamePair(iS'[k], jS'[k], iS'[l], jS'[l])
  {
    LegalSwapApplicable(g, n, iS, jS, e1, e2, v1, v2, v3, v4);
    var iS', jS' := Retarget(iS, e1, e2, v1, v2), Retarget(jS, e1, e2, v3, v4);
    if k != e1 && k != e2 && l != e1 && l != e2 {
      assert iS'[k] == iS[k] && jS'[k] == jS[k] && iS'[l] == iS[l] && jS'[l] == jS[l];
    } else if k != e1 && k != e2 {
      assert iS'[k] == iS[k] && jS'[k] == jS[k];
      FreePairNotNamed(g, n, iS, jS, v1, v3, k);
      FreePairNotNamed(g, n, iS, jS, v2, v4, k);
    } else if l != e1 && l != e2 {
      assert iS'[l] == iS[l] && jS'[l] == jS[l];
      FreePairNotNamed(g, n, iS, jS, v1, v3, l);
      FreePairNotNamed(g, n, iS, jS, v2, v4, l);
    }
  }

  lemma SwapKeepsNonzeroIndexed(g: seq<real>, n: nat, iS: seq<nat>, jS: seq<nat>,
                                e1: nat, e2: nat, v1: nat, v2: nat, v3: nat, v4: nat)
    requires SwapLegal(g, n, iS, jS, e1, e2, v1, v2, v3, v4)
    ensures NonzeroIndexed(Swapped(g, n, v1, v2, v3, v4), n,
                           Retarget(iS, e1, e2, v1, v2), Retarget(jS, e1, e2, v3, v4))
  {
    var h := Swapped(g, n, v1, v2, v3, v4);
    var iS', jS' := Retarget(iS, e1, e2, v1, v2), Retarget(jS, e1, e2, v3, v4);
    forall i, j | 0 <= i < n && 0 <= j < n && Cell(h, n, i, j) != 0.0
      ensures Named(iS', jS', i, j)
    {
      var k := SwappedPairNamed(g, n, iS, jS, e1, e2, v1, v2, v3, v4, i, j);
    }
  }

  /** Every nonzero pair after the swap is named by an entry: a new pair by the
      entry that was retargeted to it, any other by the entry that named it
      before (which the swap did not touch). */
  lemma SwappedPairNamed(g: seq<real>, n: nat, iS: seq<nat>, jS: seq<nat>,
                         e1: nat, e2: nat, v1: nat, v2: nat, v3: nat, v4: nat, i: nat, j: nat)
    returns (k: nat)
    requires SwapLegal(g, n, iS, jS, e1, e2, v1, v2, v3, v4)
    requires i < n && j < n && Cell(Swapped(g, n, v1, v2, v3, v4), n, i, j) != 0.0
    ensures k < |iS| && SamePair(Retarget(iS, e1, e2, v1, v2)[k], Retarget(jS, e1, e2, v3, v4)[k], i, j)
  {
    LegalSwapApplicable(g, n, iS, jS, e1, e2, v1, v2, v3, v4);
    SwappedCell(g, n, v1, v2, v3, v4, i, j);
    if SamePair(i, j, v1, v3) {
      k := e1;
    } else if SamePair(i, j, v2, v4) {
      k := e2;
    } else {
      assert !SamePair(i, j, v1, v2) && !SamePair(i, j, v3, v4) && Cell(g, n, i, j) != 0.0;
      k := PairNamed(g, n, iS, jS, i, j);
      assert k != e1 && k != e2;
    }
  }

  /** A nonzero cell of an indexed matrix is named by some entry. */
  lemma PairNamed(g: seq<real>, n: nat, iS: seq<nat>, jS: seq<nat>, i: nat, j: nat) returns (k: nat)
    requires |g| == n * n && |iS| == |jS| && NonzeroIndexed(g, n, iS, jS)
    requires i < n && j < n && Cell(g, n, i, j) != 0.0
    ensures k < |iS| && SamePair(iS[k], jS[k], i, j)
  {
    assert Named(iS, jS, i, j);
    k :| 0 <= k < |iS| && SamePair(iS[k], jS[k], i, j);
  }

  /** After an accepted swap the retargeted edge vectors are again an exact
      index of the nonzero pairs, and their length Ne is unchanged. */
  lemma SwapPreservesEdgeIndex(g: seq<real>, n: nat, iS: seq<nat>, jS: seq<nat>,
                               e1: nat, e2: nat, v1: nat, v2: nat, v3: nat, v4: nat)
    requires SwapLegal(g, n, iS, jS, e1, e2, v1, v2, v3, v4)
    ensures EdgeIndex(Swapped(g, n, v1, v2, v3, v4), n,
                      Retarget(iS, e1, e2, v1, v2), Retarget(jS, e1, e2, v3, v4))
  {
    SwapKeepsEdgesPresent(g, n, iS, jS, e1, e2, v1, v2, v3, v4);
    SwapKeepsEdgesDistinct(g, n, iS, jS, e1, e2, v1, v2, v3, v4);
    SwapKeepsNonzeroIndexed(g, n, iS, jS, e1, e2, v1, v2, v3, v4);
  }
}
