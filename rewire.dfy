/** The rewiring engine of rewire_graph_cpp.cpp: validation of the inputs, the
    success target, the loop of double-edge-swap attempts on the extracted
    graph, and the MAX_ITERS verdict. The C library's random stream is an input
    sequence of raw `rand()` values. */
module Rewire {
  import opened Wrappers
  import opened Graph
  import Extraction
  import FlatIndex

  /** The attempt budget of line 87. */
  const MaxIters: nat := 10_000_000
  /** The per-edge count used when the caller passes 0 (line 83). */
  const DefaultRewiresPerEdge: nat := 4
  /** RAND_MAX of the C library (glibc: 2^31 - 1). */
  const RandMax: nat := 0x7FFF_FFFF
  /** `unsigned long` arithmetic is modulo 2^64. */
  const ULongModulus: nat := 0x1_0000_0000_0000_0000

  /** A MATLAB matrix argument: its two dimensions and its data buffer. */
  datatype Matrix = Matrix(rows: nat, cols: nat, data: seq<real>)

  predicate WellFormed(m: Matrix) {
    |m.data| == m.rows * m.cols
  }

  /** The errors `mexFunction` raises through `mexErrMsgTxt`. */
  datatype Error =
    | NotSquare                                           // line 36
    | ConstraintShape                                     // line 72
    | TooManyArguments                                    // line 77
    | MaxItersReached(done: nat, target: nat, skipped: nat)  // lines 123-126

  // ---------------------------------------------------------------------------
  // Random draws
  // ---------------------------------------------------------------------------

  /** `unifRand()` of lines 15-17, rand() / RAND_MAX, read as an exact quotient:
      a value in [0, 1] that is 1 only for rand() == RAND_MAX. */
  function UnifRand(r: nat): (u: real)
    requires r <= RandMax
    ensures 0.0 <= u <= 1.0
    ensures u == 1.0 <==> r == RandMax
  {
    r as real / RandMax as real
  }

  /** `floor(Ne * unifRand())` as written at lines 89-90. It can reach Ne itself. */
  function DrawIndexAsWritten(ne: nat, r: nat): (e: nat)
    requires r <= RandMax
    ensures e <= ne
  {
    var u := UnifRand(r);
    var x := ne as real * u;
    UnitScale(ne as real, u);
    assert x.Floor as real <= ne as real;
    x.Floor
  }

  lemma UnitScale(x: real, u: real)
    requires 0.0 <= x && 0.0 <= u <= 1.0
    ensures 0.0 <= x * u <= x
    ensures u < 1.0 && x > 0.0 ==> x * u < x
  {
    assert x - x * u == x * (1.0 - u);
  }

  /** The drawn index equals Ne, one past the last edge, exactly when rand()
      returns RAND_MAX. */
  lemma DrawIndexAsWrittenOutOfRange(ne: nat, r: nat)
    requires ne > 0 && r <= RandMax
    ensures DrawIndexAsWritten(ne, r) == ne <==> r == RandMax
  {
    var u := UnifRand(r);
    var x := ne as real * u;
    UnitScale(ne as real, u);
    if r < RandMax {
      assert x < ne as real;
      assert x.Floor as real <= x;
    } else {
      assert x == ne as real;
    }
  }

  /** With one edge and rand() == RAND_MAX the source reads i_srand[1] of a
      one-element vector. */
  lemma DrawIndexAsWrittenExample()
    ensures DrawIndexAsWritten(1, RandMax) == 1
  {
    DrawIndexAsWrittenOutOfRange(1, RandMax);
  }

  /** The intended draw: scale rand() by RAND_MAX + 1, so every value lands on
      an edge index. */
  function DrawIndex(ne: nat, r: nat): (e: nat)
    requires r <= RandMax
    ensures ne > 0 ==> e < ne
    ensures ne == 0 ==> e == 0
  {
    var m := RandMax + 1;
    if ne == 0 then 0
    else
      FlatIndex.MulLe(ne, r + 1, m);
      var d := ne * r / m;
      assert m * d <= ne * r < ne * m;
      FlatIndex.MulCancelLt(m, d, ne);
      d
  }

  /** Every edge index is drawn by some rand() value, when there are at most
      RAND_MAX + 1 edges: the smallest r with e * (RAND_MAX + 1) <= Ne * r. */
  lemma DrawIndexCovers(ne: nat, e: nat) returns (r: nat)
    requires e < ne <= RandMax + 1
    ensures r <= RandMax && DrawIndex(ne, r) == e
  {
    var m := RandMax + 1;
    var q := e * m + ne - 1;
    r := q / ne;
    var p := ne * r;
    assert p <= q < p + ne by { FlatIndex.QuotientBounds(q, ne); }
    assert m * e <= p < m * e + m by {
      assert e * m == m * e;
    }
    assert r < m by {
      assert m * e + m == m * (e + 1);
      FlatIndex.MulLe(m, e + 1, ne);
      assert ne * r < ne * m;
      FlatIndex.MulCancelLt(ne, r, m);
    }
    assert p / m == e by { QuotientOf(p, m, e); }
  }

  /** The corrected draw departs from the source's on ordinary rand() values
      too, not only on RAND_MAX: with three edges, rand() = 1431655765 selects
      edge 2 in the source and edge 1 here. */
  lemma DrawsDiffer()
    ensures DrawIndexAsWritten(3, 1431655765) == 2
    ensures DrawIndex(3, 1431655765) == 1
  {
    var u := UnifRand(1431655765);
    assert 3.0 * u == 4294967295.0 / 2147483647.0;
    assert 2.0 <= 3.0 * u < 3.0;
    QuotientOf(3 * 1431655765, RandMax + 1, 1);
  }

  /** x / m == e when x lies in [m * e, m * e + m). */
  lemma QuotientOf(x: nat, m: nat, e: nat)
    requires m > 0 && m * e <= x < m * e + m
    ensures x / m == e
  {
    var d := x / m;
    FlatIndex.QuotientBounds(x, m);
    assert m * d < m * (e + 1) by { assert m * (e + 1) == m * e + m; }
    FlatIndex.MulCancelLt(m, d, e + 1);
    assert m * e < m * (d + 1) by { assert m * (d + 1) == m * d + m; }
    FlatIndex.MulCancelLt(m, e, d + 1);
  }

  /** `unifRand() > 0.5` (line 94): the orientation flip of the second edge. */
  function Flip(r: nat): (b: bool)
    requires r <= RandMax
    ensures b <==> UnifRand(r) > 0.5
  {
    2 * r > RandMax
  }

  // ---------------------------------------------------------------------------
  // Argument checks and the target
  // ---------------------------------------------------------------------------

  /** Lines 64-78: the optional third argument is the constraint matrix and must
      be N x N; a fourth argument is an error, reported only once the shape
      check has passed. */
  function CheckConstraint(n: nat, extras: seq<Matrix>): (r: Result<Option<seq<real>>, Error>)
    requires |extras| > 0 ==> WellFormed(extras[0])
    ensures r == Failure(ConstraintShape) <==> |extras| > 0 && (extras[0].rows != n || extras[0].cols != n)
    ensures r == Failure(TooManyArguments) <==> |extras| > 1 && extras[0].rows == n && extras[0].cols == n
    ensures r.Success? <==> |extras| <= 1 && (|extras| == 1 ==> extras[0].rows == n && extras[0].cols == n)
    ensures r.Success? ==> (r.value.Some? <==> |extras| == 1)
    ensures r.Success? && r.value.Some? ==> r.value.value == extras[0].data && |r.value.value| == n * n
  {
    if |extras| > 0 && (extras[0].rows != n || extras[0].cols != n) then Failure(ConstraintShape)
    else if |extras| > 1 then Failure(TooManyArguments)
    else if |extras| == 1 then Success(Some(extras[0].data))
    else Success(None)
  }

  /** Line 83: a per-edge count of 0 stands for the default; any count used is
      positive, and a positive count is used as given. */
  function EffectiveRewiresPerEdge(perEdge: nat): (k: nat)
    ensures k > 0
    ensures perEdge > 0 ==> k == perEdge
    ensures perEdge == 0 ==> k == DefaultRewiresPerEdge
  {
    if perEdge == 0 then DefaultRewiresPerEdge else perEdge
  }

  /** Lines 81-84: the success target `Ne * numRewiresPerEdge` in `unsigned long`,
      after a zero per-edge count has been replaced by the default. */
  function NumRewires(ne: nat, perEdge: nat): (t: nat)
    requires perEdge < ULongModulus
    ensures t < ULongModulus
    ensures ne == 0 ==> t == 0
    ensures var k := EffectiveRewiresPerEdge(perEdge);
            ne * k < ULongModulus ==> t == ne * k && t >= ne
  {
    var k := EffectiveRewiresPerEdge(perEdge);
    FlatIndex.MulLe(ne, 1, k);
    (ne * k) % ULongModulus
  }

  /** Without overflow the target is exactly the per-edge count for every edge. */
  lemma TargetPerEdge(ne: nat, perEdge: nat)
    requires perEdge < ULongModulus && ne > 0
    requires ne * EffectiveRewiresPerEdge(perEdge) < ULongModulus
    ensures NumRewires(ne, perEdge) / ne == EffectiveRewiresPerEdge(perEdge)
    ensures NumRewires(ne, perEdge) % ne == 0
  {
    var k := EffectiveRewiresPerEdge(perEdge);
    FlatIndex.DivModOfIndex(ne, 0, k);
    assert k * ne + 0 == ne * k;
  }

  // ---------------------------------------------------------------------------
  // One attempt, as a specification
  // ---------------------------------------------------------------------------

  /** Every entry of the edge vectors is a vertex of the N x N graph. */
  predicate InRange(iS: seq<nat>, jS: seq<nat>, n: nat) {
    |iS| == |jS| && forall k :: 0 <= k < |iS| ==> iS[k] < n && jS[k] < n
  }

  /** The second edge as the swap uses it: (v3, v4), or (v4, v3) after a flip. */
  function Oriented(a: nat, b: nat, flip: bool): (p: (nat, nat))
    ensures SamePair(p.0, p.1, a, b)
    ensures !flip ==> p == (a, b)
    ensures flip ==> (p.1, p.0) == (a, b)
  {
    if flip then (b, a) else (a, b)
  }

  /** The constraint test of line 98: the constraint value of (v1, v2) equals that
      of (v1, v3), and that of (v3, v4) equals that of (v4, v2). */
  predicate ConstraintsMatch(c: seq<real>, n: nat, v1: nat, v2: nat, v3: nat, v4: nat): (b: bool)
    requires |c| == n * n && v1 < n && v2 < n && v3 < n && v4 < n
    ensures Symmetric(c, n) ==>
              (b <==> Cell(c, n, v1, v3) == Cell(c, n, v1, v2) && Cell(c, n, v2, v4) == Cell(c, n, v4, v3))
  {
    Cell(c, n, v1, v2) == Cell(c, n, v1, v3) && Cell(c, n, v3, v4) == Cell(c, n, v4, v2)
  }

  /** How an attempt ends. */
  datatype Outcome = SharedVertex | ConstraintMismatch | Occupied | Accepted

  /** The outcome of the attempt on entries e1, e2 with the given flip, in the
      order the source tests: cross-distinctness (line 93), the constraint
      (line 98), then both target cells empty (line 103). */
  function Judge(g: seq<real>, n: nat, iS: seq<nat>, jS: seq<nat>, c: Option<seq<real>>,
                 e1: nat, e2: nat, flip: bool): (o: Outcome)
    requires |g| == n * n && InRange(iS, jS, n) && e1 < |iS| && e2 < |iS|
    requires c.Some? ==> |c.value| == n * n
    ensures o == SharedVertex <==> !CrossDistinct(iS[e1], jS[e1], iS[e2], jS[e2])
    ensures e1 == e2 ==> o == SharedVertex
    ensures o == ConstraintMismatch ==> c.Some?
  {
    var v1, v2 := iS[e1], jS[e1];
    if !CrossDistinct(v1, v2, iS[e2], jS[e2]) then SharedVertex
    else
      var (v3, v4) := Oriented(iS[e2], jS[e2], flip);
      SwapOutcome(g, n, c, v1, v2, v3, v4)
  }

  /** The tests after the cross test, for the oriented swap of (v1, v2) and
      (v3, v4). */
  function SwapOutcome(g: seq<real>, n: nat, c: Option<seq<real>>, v1: nat, v2: nat, v3: nat, v4: nat): (o: Outcome)
    requires |g| == n * n && v1 < n && v2 < n && v3 < n && v4 < n
    requires c.Some? ==> |c.value| == n * n
    ensures o != SharedVertex
    ensures o == ConstraintMismatch <==> c.Some? && !ConstraintsMatch(c.value, n, v1, v2, v3, v4)
    ensures o == Accepted <==>
              (c.Some? ==> ConstraintsMatch(c.value, n, v1, v2, v3, v4)) &&
              Cell(g, n, v1, v3) == 0.0 && Cell(g, n, v2, v4) == 0.0
    ensures c.None? ==> (o == Occupied <==> Cell(g, n, v1, v3) != 0.0 || Cell(g, n, v2, v4) != 0.0)
  {
    if c.Some? && !ConstraintsMatch(c.value, n, v1, v2, v3, v4) then ConstraintMismatch
    else if Cell(g, n, v1, v3) != 0.0 || Cell(g, n, v2, v4) != 0.0 then Occupied
    else Accepted
  }

  /** An attempt is accepted exactly when the swap it names is legal for the
      edge index and the constraint, if any, matches. */
  lemma AcceptedIffLegal(g: seq<real>, n: nat, iS: seq<nat>, jS: seq<nat>, c: Option<seq<real>>,
                         e1: nat, e2: nat, flip: bool)
    requires EdgeIndex(g, n, iS, jS) && Symmetric(g, n) && e1 < |iS| && e2 < |iS|
    requires c.Some? ==> |c.value| == n * n
    ensures InRange(iS, jS, n)
    ensures var (v3, v4) := Oriented(iS[e2], jS[e2], flip);
            Judge(g, n, iS, jS, c, e1, e2, flip) == Accepted <==>
              SwapLegal(g, n, iS, jS, e1, e2, iS[e1], jS[e1], v3, v4) &&
              (c.Some? ==> ConstraintsMatch(c.value, n, iS[e1], jS[e1], v3, v4))
  {
    assert InRange(iS, jS, n);
  }

  /** The constraint values of the edges, entry by entry. */
  function EdgeValues(c: seq<real>, n: nat, iS: seq<nat>, jS: seq<nat>): (s: seq<real>)
    requires |c| == n * n && InRange(iS, jS, n)
    ensures |s| == |iS|
  {
    seq(|iS|, k requires 0 <= k < |iS| => Cell(c, n, iS[k], jS[k]))
  }

  /** With a symmetric constraint matrix an accepted swap keeps every entry's
      constraint value: the moved edges keep the values of the edges they
      replace (for a distance matrix, the edge-length profile). */
  lemma SwapKeepsEdgeValues(c: seq<real>, n: nat, iS: seq<nat>, jS: seq<nat>,
                            e1: nat, e2: nat, v3: nat, v4: nat)
    requires |c| == n * n && Symmetric(c, n) && InRange(iS, jS, n)
    requires e1 < |iS| && e2 < |iS| && e1 != e2 && v3 < n && v4 < n
    requires SamePair(v3, v4, iS[e2], jS[e2])
    requires ConstraintsMatch(c, n, iS[e1], jS[e1], v3, v4)
    ensures InRange(Retarget(iS, e1, e2, iS[e1], jS[e1]), Retarget(jS, e1, e2, v3, v4), n)
    ensures EdgeValues(c, n, Retarget(iS, e1, e2, iS[e1], jS[e1]), Retarget(jS, e1, e2, v3, v4))
         == EdgeValues(c, n, iS, jS)
  {
    var v1, v2 := iS[e1], jS[e1];
    var iS', jS' := Retarget(iS, e1, e2, v1, v2), Retarget(jS, e1, e2, v3, v4);
    assert InRange(iS', jS', n);
    var s', s := EdgeValues(c, n, iS', jS'), EdgeValues(c, n, iS, jS);
    forall k | 0 <= k < |s|
      ensures s'[k] == s[k]
    {
      if k == e2 {
        assert Cell(c, n, iS[e2], jS[e2]) == Cell(c, n, v3, v4);
      }
    }
  }

  /** h has the degree of every vertex and the multiset of edge weights of g. */
  ghost predicate SameShape(h: seq<real>, g: seq<real>, n: nat) {
    |h| == n * n && |g| == n * n &&
    (forall v :: 0 <= v < n ==> Degree(h, n, v) == Degree(g, n, v)) &&
    LowerWeights(h, n) == LowerWeights(g, n)
  }

  /** Everything an accepted swap keeps: the exact edge index, symmetry, every
      degree, the multiset of edge weights and, for a symmetric constraint
      matrix whose test the swap passed, every entry's constraint value. */
  lemma AcceptedSwapKeeps(g: seq<real>, n: nat, iS: seq<nat>, jS: seq<nat>, c: Option<seq<real>>,
                          e1: nat, e2: nat, v1: nat, v2: nat, v3: nat, v4: nat)
    requires SwapLegal(g, n, iS, jS, e1, e2, v1, v2, v3, v4) && v1 < n && v2 < n && v3 < n && v4 < n
    requires c.Some? ==> |c.value| == n * n && ConstraintsMatch(c.value, n, v1, v2, v3, v4)
    ensures var h, iS', jS' := Swapped(g, n, v1, v2, v3, v4), Retarget(iS, e1, e2, v1, v2), Retarget(jS, e1, e2, v3, v4);
            EdgeIndex(h, n, iS', jS') && Symmetric(h, n) && SameShape(h, g, n) &&
            InRange(iS, jS, n) && InRange(iS', jS', n) &&
            (c.Some? && Symmetric(c.value, n) ==> EdgeValues(c.value, n, iS', jS') == EdgeValues(c.value, n, iS, jS))
  {
    LegalSwapApplicable(g, n, iS, jS, e1, e2, v1, v2, v3, v4);
    SwapPreservesSymmetry(g, n, v1, v2, v3, v4);
    SwapPreservesEdgeIndex(g, n, iS, jS, e1, e2, v1, v2, v3, v4);
    SwapPreservesDegree(g, n, v1, v2, v3, v4);
    SwapPreservesLowerWeights(g, n, v1, v2, v3, v4);
    assert InRange(iS, jS, n);
    assert InRange(Retarget(iS, e1, e2, v1, v2), Retarget(jS, e1, e2, v3, v4), n);
    if c.Some? && Symmetric(c.value, n) {
      SwapKeepsEdgeValues(c.value, n, iS, jS, e1, e2, v3, v4);
    }
  }

  // ---------------------------------------------------------------------------
  // The verdict
  // ---------------------------------------------------------------------------

  /** Lines 123-126: the call fails exactly when the attempt budget is used up,
      whether or not the last attempt reached the target. */
  function Verdict(numAttempts: nat, actual: nat, target: nat, skipped: nat, g: seq<real>): (r: Result<seq<real>, Error>)
    ensures r.Failure? <==> numAttempts == MaxIters
    ensures r.Failure? ==> r.error == MaxItersReached(actual, target, skipped)
    ensures r.Success? ==> r.value == g
  {
    if numAttempts == MaxIters then Failure(MaxItersReached(actual, target, skipped)) else Success(g)
  }

  // ---------------------------------------------------------------------------
  // The engine
  // ---------------------------------------------------------------------------

  /** The state of the swap loop: the output buffer, the edge vectors
      `i_srand`/`j_srand`, the optional constraint and the three counters. */
  class Rewiring {
    const n: nat
    const outGraph: array<real>
    const constraint: Option<seq<real>>
    var iS: seq<nat>
    var jS: seq<nat>
    var numAttempts: nat
    var actualRewires: nat
    var constraintSkipped: nat

    /** The buffer is a symmetric N x N matrix whose nonzero pairs the edge
        vectors index exactly. */
    ghost predicate Valid()
      reads this, outGraph
    {
      outGraph.Length == n * n && EdgeIndex(outGraph[..], n, iS, jS) && Symmetric(outGraph[..], n) &&
      (constraint.Some? ==> |constraint.value| == n * n)
    }

    /** The buffer keeps the degree of every vertex and the multiset of edge
        weights of g0. */
    ghost predicate KeepsShape(g0: seq<real>)
      reads this, outGraph
    {
      outGraph.Length == n * n && SameShape(outGraph[..], g0, n)
    }

    constructor (n: nat, outGraph: array<real>, iS: seq<nat>, jS: seq<nat>, constraint: Option<seq<real>>)
      requires outGraph.Length == n * n && EdgeIndex(outGraph[..], n, iS, jS) && Symmetric(outGraph[..], n)
      requires constraint.Some? ==> |constraint.value| == n * n
      ensures Valid()
      ensures this.n == n && this.outGraph == outGraph && this.constraint == constraint
      ensures this.iS == iS && this.jS == jS
      ensures numAttempts == 0 && actualRewires == 0 && constraintSkipped == 0
    {
      this.n := n;
      this.outGraph := outGraph;
      this.constraint := constraint;
      this.iS := iS;
      this.jS := jS;
      numAttempts := 0;
      actualRewires := 0;
      constraintSkipped := 0;
    }

    /** Lines 104-113: the eight writes of an accepted swap. */
    method SwapCells(v1: nat, v2: nat, v3: nat, v4: nat)
      requires outGraph.Length == n * n && v1 < n && v2 < n && v3 < n && v4 < n
      modifies outGraph
      ensures outGraph[..] == Swapped(old(outGraph[..]), n, v1, v2, v3, v4)
    {
      ghost var g := outGraph[..];
      PosBound(n, v1, v2); PosBound(n, v3, v4); PosBound(n, v2, v1); PosBound(n, v4, v3);
      PosBound(n, v1, v3); PosBound(n, v2, v4); PosBound(n, v3, v1); PosBound(n, v4, v2);
      var w12 := outGraph[n * v1 + v2];
      var w34 := outGraph[n * v4 + v3];
      assert w12 == Cell(g, n, v1, v2) && w34 == Cell(g, n, v4, v3);
      ghost var h := g;
      outGraph[n * v1 + v2] := 0.0;
      h := h[Pos(n, v1, v2) := 0.0];
      assert outGraph[..] == h;
      outGraph[n * v3 + v4] := 0.0;
      h := h[Pos(n, v3, v4) := 0.0];
      assert outGraph[..] == h;
      outGraph[n * v2 + v1] := 0.0;
      h := h[Pos(n, v2, v1) := 0.0];
      assert outGraph[..] == h;
      outGraph[n * v4 + v3] := 0.0;
      h := h[Pos(n, v4, v3) := 0.0];
      assert outGraph[..] == h;
      outGraph[n * v1 + v3] := w12;
      h := h[Pos(n, v1, v3) := w12];
      assert outGraph[..] == h;
      outGraph[n * v2 + v4] := w34;
      h := h[Pos(n, v2, v4) := w34];
      assert outGraph[..] == h;
      outGraph[n * v3 + v1] := w12;
      h := h[Pos(n, v3, v1) := w12];
      assert outGraph[..] == h;
      outGraph[n * v4 + v2] := w34;
      h := h[Pos(n, v4, v2) := w34];
      assert outGraph[..] == h;
      assert h == Swapped(g, n, v1, v2, v3, v4);
    }

    /** One pass of the loop body from line 91 on, for the drawn entries e1, e2
        and the rand() value r3 that the flip test of line 94 draws when the
        cross test passes; `used` is how many rand() values the pass consumed
        (the two edge draws included). A rejected attempt changes nothing but
        the skip counter on a constraint mismatch; an accepted one is the swap
        on the buffer and the retargeting of e1 and e2, and keeps the index,
        the degrees, the weights and, for a symmetric constraint, every entry's
        constraint value. */
    method Attempt(e1: nat, e2: nat, r3: nat) returns (outcome: Outcome, used: nat)
      requires Valid() && e1 < |iS| && e2 < |iS| && r3 <= RandMax
      modifies this, outGraph
      ensures Valid() && |iS| == old(|iS|)
      ensures old(InRange(iS, jS, n))
      ensures outcome == Judge(old(outGraph[..]), n, old(iS), old(jS), constraint, e1, e2, Flip(r3))
      ensures used == if outcome == SharedVertex then 2 else 3
      ensures outcome != Accepted ==> outGraph[..] == old(outGraph[..]) && iS == old(iS) && jS == old(jS)
      ensures outcome == Accepted ==>
                var (v3, v4) := old(Oriented(iS[e2], jS[e2], Flip(r3)));
                outGraph[..] == Swapped(old(outGraph[..]), n, old(iS[e1]), old(jS[e1]), v3, v4) &&
                iS == Retarget(old(iS), e1, e2, old(iS[e1]), old(jS[e1])) &&
                jS == Retarget(old(jS), e1, e2, v3, v4)
      ensures actualRewires == old(actualRewires) + (if outcome == Accepted then 1 else 0)
      ensures constraintSkipped == old(constraintSkipped) + (if outcome == ConstraintMismatch then 1 else 0)
      ensures numAttempts == old(numAttempts)
      ensures KeepsShape(old(outGraph[..]))
      ensures constraint.Some? && Symmetric(constraint.value, n) ==>
                old(InRange(iS, jS, n)) && InRange(iS, jS, n) &&
                EdgeValues(constraint.value, n, iS, jS) == old(EdgeValues(constraint.value, n, iS, jS))
    {
      ghost var g0, iS0, jS0 := outGraph[..], iS, jS;
      assert InRange(iS, jS, n);
      var v1, v2 := iS[e1], jS[e1];
      var v3, v4 := iS[e2], jS[e2];
      if !(v1 != v3 && v1 != v4 && v2 != v4 && v2 != v3) {
        outcome, used := SharedVertex, 2;
        assert outcome == Judge(g0, n, iS0, jS0, constraint, e1, e2, Flip(r3));
        return;
      }
      used := 3;
      if Flip(r3) {
        var v5 := v3; v3 := v4; v4 := v5;
      }
      assert (v3, v4) == Oriented(iS0[e2], jS0[e2], Flip(r3));
      outcome := Constrained(e1, e2, v1, v2, v3, v4);
    }

    /** Lines 97-119, for an oriented pair of edges that passed the cross test:
        the constraint test, then the swap when both target cells are empty. */
    method Constrained(e1: nat, e2: nat, v1: nat, v2: nat, v3: nat, v4: nat) returns (outcome: Outcome)
      requires Valid() && e1 < |iS| && e2 < |iS|
      requires v1 == iS[e1] && v2 == jS[e1] && SamePair(v3, v4, iS[e2], jS[e2]) && CrossDistinct(v1, v2, v3, v4)
      modifies this, outGraph
      ensures old(InRange(iS, jS, n))
      ensures outcome == SwapOutcome(old(outGraph[..]), n, constraint, v1, v2, v3, v4)
      ensures outcome != Accepted ==> outGraph[..] == old(outGraph[..]) && iS == old(iS) && jS == old(jS)
      ensures outcome == Accepted ==>
                outGraph[..] == Swapped(old(outGraph[..]), n, v1, v2, v3, v4) &&
                iS == Retarget(old(iS), e1, e2, v1, v2) && jS == Retarget(old(jS), e1, e2, v3, v4)
      ensures actualRewires == old(actualRewires) + (if outcome == Accepted then 1 else 0)
      ensures constraintSkipped == old(constraintSkipped) + (if outcome == ConstraintMismatch then 1 else 0)
      ensures numAttempts == old(numAttempts)
      ensures Valid() && |iS| == old(|iS|) && KeepsShape(old(outGraph[..]))
      ensures constraint.Some? && Symmetric(constraint.value, n) ==>
                InRange(iS, jS, n) &&
                EdgeValues(constraint.value, n, iS, jS) == old(EdgeValues(constraint.value, n, iS, jS))
    {
      assert InRange(iS, jS, n);
      PosBound(n, v1, v2); PosBound(n, v1, v3); PosBound(n, v3, v4); PosBound(n, v4, v2);
      if constraint.Some? {
        var c := constraint.value;
        if c[n * v1 + v2] != c[n * v1 + v3] || c[n * v3 + v4] != c[n * v4 + v2] {
          constraintSkipped := constraintSkipped + 1;
          outcome := ConstraintMismatch;
          return;
        }
      }
      var accepted := TrySwap(e1, e2, v1, v2, v3, v4);
      outcome := if accepted then Accepted else Occupied;
    }

    /** Line 103 for a pair of edges that passed the cross and constraint tests:
        swap when both target cells are empty, and change nothing otherwise. */
    method TrySwap(e1: nat, e2: nat, v1: nat, v2: nat, v3: nat, v4: nat) returns (accepted: bool)
      requires Valid() && e1 < |iS| && e2 < |iS|
      requires v1 == iS[e1] && v2 == jS[e1] && SamePair(v3, v4, iS[e2], jS[e2]) && CrossDistinct(v1, v2, v3, v4)
      requires constraint.Some? ==> ConstraintsMatch(constraint.value, n, v1, v2, v3, v4)
      modifies this, outGraph
      ensures old(InRange(iS, jS, n))
      ensures accepted <==> old(Cell(outGraph[..], n, v1, v3) == 0.0 && Cell(outGraph[..], n, v2, v4) == 0.0)
      ensures !accepted ==> outGraph[..] == old(outGraph[..]) && iS == old(iS) && jS == old(jS)
      ensures accepted ==>
                outGraph[..] == Swapped(old(outGraph[..]), n, v1, v2, v3, v4) &&
                iS == Retarget(old(iS), e1, e2, v1, v2) && jS == Retarget(old(jS), e1, e2, v3, v4)
      ensures actualRewires == old(actualRewires) + (if accepted then 1 else 0)
      ensures constraintSkipped == old(constraintSkipped) && numAttempts == old(numAttempts)
      ensures Valid() && |iS| == old(|iS|) && KeepsShape(old(outGraph[..]))
      ensures constraint.Some? && Symmetric(constraint.value, n) ==>
                InRange(iS, jS, n) &&
                EdgeValues(constraint.value, n, iS, jS) == old(EdgeValues(constraint.value, n, iS, jS))
    {
      assert InRange(iS, jS, n);
      PosBound(n, v1, v3); PosBound(n, v2, v4);
      if outGraph[v1 * n + v3] == 0.0 && outGraph[v2 * n + v4] == 0.0 {
        Swap(e1, e2, v1, v2, v3, v4);
        accepted := true;
      } else {
        accepted := false;
      }
    }

    /** Lines 104-118, a legal swap: move the two weights, retarget entries e1
        and e2, and count the rewire. The edge index, symmetry, every degree,
        the multiset of weights and, for a symmetric constraint, every entry's
        constraint value are kept. */
    method Swap(e1: nat, e2: nat, v1: nat, v2: nat, v3: nat, v4: nat)
      requires Valid() && SwapLegal(outGraph[..], n, iS, jS, e1, e2, v1, v2, v3, v4)
      requires v1 < n && v2 < n && v3 < n && v4 < n
      requires constraint.Some? ==> ConstraintsMatch(constraint.value, n, v1, v2, v3, v4)
      modifies this, outGraph
      ensures outGraph[..] == Swapped(old(outGraph[..]), n, v1, v2, v3, v4)
      ensures iS == Retarget(old(iS), e1, e2, v1, v2) && jS == Retarget(old(jS), e1, e2, v3, v4)
      ensures actualRewires == old(actualRewires) + 1
      ensures constraintSkipped == old(constraintSkipped) && numAttempts == old(numAttempts)
      ensures Valid() && |iS| == old(|iS|) && KeepsShape(old(outGraph[..]))
      ensures constraint.Some? && Symmetric(constraint.value, n) ==>
                old(InRange(iS, jS, n)) && InRange(iS, jS, n) &&
                EdgeValues(constraint.value, n, iS, jS) == old(EdgeValues(constraint.value, n, iS, jS))
    {
      ghost var g0, iS0, jS0 := outGraph[..], iS, jS;
      AcceptedSwapKeeps(g0, n, iS0, jS0, constraint, e1, e2, v1, v2, v3, v4);
      SwapCells(v1, v2, v3, v4);
      iS := iS[e1 := v1][e2 := v2];
      jS := jS[e1 := v3][e2 := v4];
      actualRewires := actualRewires + 1;
    }

    /** Lines 87-121: attempt swaps until the target is met or MAX_ITERS
        attempts have been made. Each attempt draws e1 and e2 from the next two
        values of `rands` and, when the cross test passes, the flip from the
        third. The loop keeps the edge index, the degrees and the weights, and
        stops with the target met unless the budget ran out. */
    method Run(numRewires: nat, rands: seq<nat>)
      requires Valid() && numAttempts == 0 && actualRewires == 0 && constraintSkipped == 0
      requires |iS| == 0 ==> numRewires == 0
      requires |rands| >= 3 * MaxIters && forall k :: 0 <= k < |rands| ==> rands[k] <= RandMax
      modifies this, outGraph
      ensures Valid() && |iS| == old(|iS|) && KeepsShape(old(outGraph[..]))
      ensures numAttempts <= MaxIters && actualRewires <= numRewires
      ensures numAttempts < MaxIters ==> actualRewires == numRewires
      ensures actualRewires + constraintSkipped <= numAttempts
      ensures constraint.None? ==> constraintSkipped == 0
      ensures constraint.Some? && Symmetric(constraint.value, n) ==>
                old(InRange(iS, jS, n)) && InRange(iS, jS, n) &&
                EdgeValues(constraint.value, n, iS, jS) == old(EdgeValues(constraint.value, n, iS, jS))
    {
      ghost var g0, iS0, jS0 := outGraph[..], iS, jS;
      assert InRange(iS, jS, n);
      var cursor := 0;
      while numAttempts < MaxIters && actualRewires < numRewires
        invariant Valid() && |iS| == |iS0| && KeepsShape(g0)
        invariant numAttempts <= MaxIters && actualRewires <= numRewires
        invariant cursor <= 3 * numAttempts
        invariant actualRewires + constraintSkipped <= numAttempts
        invariant constraint.None? ==> constraintSkipped == 0
        invariant constraint.Some? && Symmetric(constraint.value, n) ==>
                    InRange(iS0, jS0, n) && InRange(iS, jS, n) &&
                    EdgeValues(constraint.value, n, iS, jS) == EdgeValues(constraint.value, n, iS0, jS0)
        decreases MaxIters - numAttempts
      {
        var ne := |iS|;
        var e1 := DrawIndex(ne, rands[cursor]);
        var e2 := DrawIndex(ne, rands[cursor + 1]);
        ghost var g1 := outGraph[..];
        var outcome, used := Attempt(e1, e2, rands[cursor + 2]);
        SameShapeTrans(outGraph[..], g1, g0, n);
        cursor := cursor + used;
        numAttempts := numAttempts + 1;
      }
    }
  }

  lemma SameShapeTrans(h: seq<real>, g: seq<real>, f: seq<real>, n: nat)
    requires SameShape(h, g, n) && SameShape(g, f, n)
    ensures SameShape(h, f, n)
  {
  }

  // ---------------------------------------------------------------------------
  // The entry point
  // ---------------------------------------------------------------------------

  /** `mexFunction` on a rows x cols input matrix, the per-edge rewire count,
      the arguments after the second and the stream of rand() values: after
      the shape checks the result is the rewired symmetric matrix, which keeps
      every vertex's degree and the multiset of edge weights of the input's
      lower triangle, or the MAX_ITERS error with the counts the source
      reports. */
  method RewireGraph(rows: nat, cols: nat, graph: seq<real>, perEdge: nat, extras: seq<Matrix>, rands: seq<nat>)
    returns (result: Result<seq<real>, Error>)
    requires |graph| == rows * cols && perEdge < ULongModulus
    requires |extras| > 0 ==> WellFormed(extras[0])
    requires |rands| >= 3 * MaxIters && forall k :: 0 <= k < |rands| ==> rands[k] <= RandMax
    ensures result == Failure(NotSquare) <==> rows != cols
    ensures rows == cols && CheckConstraint(rows, extras).Failure? ==>
              result == Failure(CheckConstraint(rows, extras).error)
    ensures rows == cols && CheckConstraint(rows, extras).Success? ==>
              result.Success? || result.error.MaxItersReached?
    ensures result.Success? ==>
              rows == cols && CheckConstraint(rows, extras).Success? &&
              var g := result.value;
              |g| == rows * rows && Symmetric(g, rows) && ZeroDiagonal(g, rows) &&
              (forall v :: 0 <= v < rows ==> Degree(g, rows, v) == Extraction.InputDegree(graph, rows, v)) &&
              LowerWeights(g, rows) == LowerWeights(graph, rows)
    ensures result.Success? && Symmetric(graph, rows) && ZeroDiagonal(graph, rows) ==>
              forall v :: 0 <= v < rows ==> Degree(result.value, rows, v) == Degree(graph, rows, v)
    ensures result.Failure? && result.error.MaxItersReached? ==>
              rows == cols && CheckConstraint(rows, extras).Success? &&
              result.error.target == NumRewires(|LowerWeights(graph, rows)|, perEdge) &&
              result.error.done <= result.error.target &&
              result.error.done + result.error.skipped <= MaxIters
  {
    if rows != cols {
      return Failure(NotSquare);
    }
    var n := rows;
    var out := new real[n * n](_ => 0.0);
    var iS, jS := Extraction.ExtractEdges(graph, n, out);
    Extraction.MirroredCopyShape(out[..], graph, n);
    Extraction.MirroredCopyWeights(out[..], graph, n);
    Extraction.MirroredCopyDegree(out[..], graph, n);
    Extraction.ExtractedEdgeIndex(out[..], graph, n, iS, jS);
    var checked := CheckConstraint(n, extras);
    if checked.Failure? {
      return Failure(checked.error);
    }
    var numRewires := NumRewires(|iS|, perEdge);
    var rw := new Rewiring(n, out, iS, jS, checked.value);
    rw.Run(numRewires, rands);
    EdgeIndexZeroDiagonal(out[..], n, rw.iS, rw.jS);
    if Symmetric(graph, n) && ZeroDiagonal(graph, n) {
      Extraction.SymmetricInputDegree(graph, n);
    }
    result := Verdict(rw.numAttempts, rw.actualRewires, numRewires, rw.constraintSkipped, out[..]);
  }
}
