/** Column-major index arithmetic of the MEX helper header: converting between a
    flat index into a matrix buffer and its (x, y) or (x, y, z) coordinates.
    The C code works on 32-bit `int`, whose `/` and `%` truncate toward zero and
    whose overflow is undefined; both are written out here. */
module FlatIndex {

  const IntMin: int := -0x8000_0000
  const IntMax: int := 0x7FFF_FFFF

  newtype int32 = x: int | -0x8000_0000 <= x < 0x8000_0000

  predicate InInt32(x: int) {
    IntMin <= x <= IntMax
  }

  function Abs(a: int): (m: nat)
    ensures m == a || m == -a
  {
    if a < 0 then -a else a
  }

  /** C's `/`: the quotient truncated toward zero, that is the quotient of the
      magnitudes with the sign of a * b. */
  function TruncDiv(a: int, b: int): (q: int)
    requires b != 0
    ensures var r := a - b * q;
            Abs(r) < Abs(b) && (if a >= 0 then 0 <= r <= a else a <= r <= 0)
    ensures q == 0 || (q < 0 <==> (a < 0) != (b < 0))
  {
    var m: int := Abs(a) / Abs(b);
    TruncDivRemainder(a, b, m);
    if (a < 0) != (b < 0) then -m else m
  }

  /** The remainder left by the truncated quotient has the magnitude of the
      remainder of |a| by |b| and the sign of a. */
  lemma TruncDivRemainder(a: int, b: int, m: int)
    requires b != 0 && m == Abs(a) / Abs(b)
    ensures var q: int := if (a < 0) != (b < 0) then -m else m;
            var r := a - b * q;
            Abs(r) < Abs(b) && (if a >= 0 then 0 <= r <= a else a <= r <= 0)
  {
    var aa, bb := Abs(a), Abs(b);
    QuotientBounds(aa, bb);
    MulLe(bb, 0, m);
    var q: int := if (a < 0) != (b < 0) then -m else m;
    SignedProduct(a, b, m, q);
  }

  /** Euclid's division of naturals: d * (x / d) <= x < d * (x / d) + d. */
  lemma QuotientBounds(x: nat, d: nat)
    requires d > 0
    ensures d * (x / d) <= x < d * (x / d) + d
  {
  }

  /** b * q for the signed quotient q: the product of the magnitudes, with the
      sign of a. */
  lemma SignedProduct(a: int, b: int, m: int, q: int)
    requires b != 0 && m >= 0 && q == if (a < 0) != (b < 0) then -m else m
    ensures b * q == if a >= 0 then Abs(b) * m else -(Abs(b) * m)
  {
    var bb := Abs(b);
    assert (-bb) * (-m) == bb * m && (-bb) * m == -(bb * m) && bb * (-m) == -(bb * m);
  }

  /** C's `%`: the remainder that goes with TruncDiv; it takes the sign of the
      dividend. */
  function TruncRem(a: int, b: int): (r: int)
    requires b != 0
    ensures a == b * TruncDiv(a, b) + r
    ensures Abs(r) < Abs(b)
    ensures r == 0 || (r < 0 <==> a < 0)
  {
    a - b * TruncDiv(a, b)
  }

  lemma MulLe(d: int, a: int, b: int)
    requires d >= 0 && a <= b
    ensures d * a <= d * b
  {
    assert d * b - d * a == d * (b - a);
  }

  lemma MulCancelLt(d: int, a: int, b: int)
    requires d > 0 && d * a < d * b
    ensures a < b
  {
    if a >= b {
      MulLe(d, b, a);
    }
  }

  /** |b * q| is at least |q|, and at least 2|q| once |b| >= 2. */
  lemma MulAbsBound(b: int, q: int)
    requires b != 0
    ensures Abs(q) <= Abs(b * q)
    ensures Abs(b) >= 2 ==> 2 * Abs(q) <= Abs(b * q)
  {
    var k := if Abs(b) >= 2 then 2 else 1;
    MulLe(Abs(q), k, Abs(b));
    assert Abs(b * q) == Abs(q) * Abs(b);
  }

  /** The quotient and remainder of `y * d + x` by `d` when `0 <= x < d`: the
      arithmetic fact behind every round trip between a flat index and its
      coordinates. */
  lemma DivModOfIndex(d: int, x: int, y: int)
    requires 0 <= x < d
    ensures (y * d + x) / d == y
    ensures (y * d + x) % d == x
  {
    var a := y * d + x;
    var q, r := a / d, a % d;
    assert a == d * q + r && 0 <= r < d;
    assert d * (y - 1) < d * q by { assert d * (y - 1) == d * y - d; }
    MulCancelLt(d, y - 1, q);
    assert d * q < d * (y + 1) by { assert d * (y + 1) == d * y + d; }
    MulCancelLt(d, q, y + 1);
  }

  /** A truncated quotient of two 32-bit values is again one, except INT_MIN / -1. */
  lemma QuotientInRange(a: int, b: int)
    requires b != 0 && InInt32(a) && InInt32(b)
    requires !(a == IntMin && b == -1)
    ensures InInt32(TruncDiv(a, b))
  {
    var q := TruncDiv(a, b);
    MulAbsBound(b, q);
    assert Abs(b * q) <= Abs(a);
  }

  /** The facts `findCoordinates` promises, about C's quotient and remainder of
      a by d. */
  lemma CoordinatesFacts(d: int, a: int)
    requires d != 0 && InInt32(a) && InInt32(d)
    requires !(a == IntMin && d == -1)
    ensures var q, r := TruncDiv(a, d), TruncRem(a, d);
            InInt32(q) && InInt32(r) && q * d + r == a && Abs(r) < Abs(d) &&
            (r == 0 || (r < 0 <==> a < 0)) &&
            (d > 0 && a >= 0 ==> 0 <= r < d && q >= 0)
  {
    QuotientInRange(a, d);
    var q, r := TruncDiv(a, d), TruncRem(a, d);
    assert q * d == d * q;
    if d > 0 && a >= 0 {
      assert 0 <= r <= a;
      if q < 0 {
        MulLe(d, q, -1);
      }
    }
  }

  /** Coordinates of a flat index. */
  datatype Coord = Coord(x: int32, y: int32)

  /** `findCoordinates`: x = index % numRows, y = index / numRows, with C's
      truncating operators. The only undefined case of C's division, INT_MIN / -1,
      is excluded together with division by zero. */
  function FindCoordinates(numRows: int32, index: int32): (c: Coord)
    requires numRows != 0
    requires !(index as int == IntMin && numRows == -1)
    ensures c.y as int * numRows as int + c.x as int == index as int
    ensures Abs(c.x as int) < Abs(numRows as int)
    ensures c.x == 0 || (c.x < 0 <==> index < 0)
    ensures numRows > 0 && index >= 0 ==> 0 <= c.x < numRows && c.y >= 0
  {
    CoordinatesFacts(numRows as int, index as int);
    Coord(TruncRem(index as int, numRows as int) as int32, TruncDiv(index as int, numRows as int) as int32)
  }

  /** Both multiplications and additions `findIndex` performs on `int` stay
      within 32 bits (signed overflow is undefined in C). */
  predicate IndexDefined(numRows: int32, x: int32, y: int32) {
    InInt32(y as int * numRows as int) && InInt32(y as int * numRows as int + x as int)
  }

  /** `findIndex` for two coordinates: y * numRows + x. Within the grid, the
      index of (x, y) lies in the block of column y. */
  function FindIndex(numRows: int32, x: int32, y: int32): (i: int32)
    requires IndexDefined(numRows, x, y)
    ensures 0 <= x < numRows && 0 <= y ==>
              0 <= i as int - y as int * numRows as int < numRows as int
    ensures 0 <= x < numRows && 0 <= y ==> FindCoordinates(numRows, i) == Coord(x, y)
  {
    ColumnIndexInverse(numRows, x, y);
    y * numRows + x
  }

  /** Within a column, `findCoordinates` undoes y * numRows + x. */
  lemma ColumnIndexInverse(numRows: int32, x: int32, y: int32)
    requires IndexDefined(numRows, x, y)
    ensures 0 <= x < numRows && 0 <= y ==>
              FindCoordinates(numRows, (y as int * numRows as int + x as int) as int32) == Coord(x, y)
  {
    if 0 <= x < numRows && 0 <= y {
      var i := y as int * numRows as int + x as int;
      MulLe(numRows as int, 0, y as int);
      DivModOfIndex(numRows as int, x as int, y as int);
      assert TruncDiv(i, numRows as int) == y as int;
    }
  }

  /** Every intermediate value of `z*numRows*numCols + y*numRows + x`, evaluated
      left to right as C does, stays within 32 bits. */
  predicate Index3Defined(numRows: int32, numCols: int32, x: int32, y: int32, z: int32) {
    var zr := z as int * numRows as int;
    var zrc := zr * numCols as int;
    var yr := y as int * numRows as int;
    InInt32(zr) && InInt32(zrc) && InInt32(yr) && InInt32(zrc + yr) && InInt32(zrc + yr + x as int)
  }

  /** `findIndex` for three coordinates: z * numRows * numCols + y * numRows + x.
      Within the grid, the index of (x, y, z) lies in the block of layer z. */
  function FindIndex3(numRows: int32, numCols: int32, x: int32, y: int32, z: int32): (i: int32)
    requires Index3Defined(numRows, numCols, x, y, z)
    ensures 0 <= x < numRows && 0 <= y < numCols ==>
              0 <= i as int - z as int * numRows as int * numCols as int < numRows as int * numCols as int
  {
    LayerOffset(numRows as int, numCols as int, x as int, y as int);
    z * numRows * numCols + y * numRows + x
  }

  /** Within a layer of numRows * numCols cells, y * numRows + x is an offset
      into that layer. */
  lemma LayerOffset(r: int, c: int, x: int, y: int)
    ensures 0 <= x < r && 0 <= y < c ==> 0 <= y * r + x < r * c
  {
    if 0 <= x < r && 0 <= y < c {
      MulLe(r, 0, y);
      MulLe(r, y + 1, c);
      assert r * (y + 1) == r * y + r;
    }
  }

  /** From an index to coordinates and back gives the index again, for every
      index and every nonzero row count C can divide by. */
  lemma CoordinatesRoundTrip(numRows: int32, index: int32)
    requires numRows != 0
    requires !(index as int == IntMin && numRows == -1)
    ensures var c := FindCoordinates(numRows, index);
            IndexDefined(numRows, c.x, c.y) && FindIndex(numRows, c.x, c.y) == index
  {
    var c := FindCoordinates(numRows, index);
    var yr := c.y as int * numRows as int;
    assert yr == index as int - c.x as int;
    assert InInt32(yr) by {
      if index >= 0 {
        assert 0 <= c.x as int <= index as int;
      } else {
        assert index as int <= c.x as int <= 0;
      }
    }
  }

  /** From coordinates within a column to an index and back gives the
      coordinates again. */
  lemma IndexRoundTrip(numRows: int32, x: int32, y: int32)
    requires 0 <= x < numRows && 0 <= y
    requires IndexDefined(numRows, x, y)
    ensures FindIndex(numRows, x, y) >= 0
    ensures FindCoordinates(numRows, FindIndex(numRows, x, y)) == Coord(x, y)
  {
    MulLe(numRows as int, 0, y as int);
  }

  /** Two-dimensional `findIndex` is one-to-one on coordinates within a column. */
  lemma IndexInjective(numRows: int32, x: int32, y: int32, x': int32, y': int32)
    requires 0 <= x < numRows && 0 <= y && IndexDefined(numRows, x, y)
    requires 0 <= x' < numRows && 0 <= y' && IndexDefined(numRows, x', y')
    requires FindIndex(numRows, x, y) == FindIndex(numRows, x', y')
    ensures x == x' && y == y'
  {
    IndexRoundTrip(numRows, x, y);
    IndexRoundTrip(numRows, x', y');
  }

  /** On layer z = 0 the three-dimensional index is the two-dimensional one. */
  lemma Index3LayerZero(numRows: int32, numCols: int32, x: int32, y: int32)
    requires IndexDefined(numRows, x, y)
    ensures Index3Defined(numRows, numCols, x, y, 0)
    ensures FindIndex3(numRows, numCols, x, y, 0) == FindIndex(numRows, x, y)
  {
  }

  /** One step in z moves the three-dimensional index by a whole layer of
      numRows * numCols entries. */
  lemma Index3LayerStep(numRows: int32, numCols: int32, x: int32, y: int32, z: int32)
    requires z as int < IntMax
    requires Index3Defined(numRows, numCols, x, y, z)
    requires Index3Defined(numRows, numCols, x, y, z + 1)
    ensures FindIndex3(numRows, numCols, x, y, z + 1) as int
         == FindIndex3(numRows, numCols, x, y, z) as int + numRows as int * numCols as int
  {
    var r, c := numRows as int, numCols as int;
    assert (z as int + 1) * r * c == z as int * r * c + r * c;
  }

  /** One step in y moves the three-dimensional index by one column of numRows
      entries. */
  lemma Index3ColumnStep(numRows: int32, numCols: int32, x: int32, y: int32, z: int32)
    requires y as int < IntMax
    requires Index3Defined(numRows, numCols, x, y, z)
    requires Index3Defined(numRows, numCols, x, y + 1, z)
    ensures FindIndex3(numRows, numCols, x, y + 1, z) as int
         == FindIndex3(numRows, numCols, x, y, z) as int + numRows as int
  {
    assert (y as int + 1) * numRows as int == y as int * numRows as int + numRows as int;
  }
}
